/** The policy of the load balancer, stated on values: a pool is the sequence
    of its servers' states. Each function here is what one operation of the
    LoadBalancer class does to that sequence; the class is proved against them
    and the lemmas below state what the policy guarantees. */
module Pool {
  import opened Requests
  import opened Servers
  import Queues
  import Arithmetic

  datatype Option<T> = None | Some(value: T)

  function Min(a: int, b: int): int
  {
    if a <= b then a else b
  }

  /** Capacity of every server addServer creates. It is not the WebServer
      default of 10; the two constants are kept apart. */
  const PoolCapacity: int := 5

  /** Queue length above which the pool grows whatever the utilization. */
  const GrowQueueLength: int := 10

  /** Scale-down needs utilization below this fraction of the threshold. */
  const ShrinkFraction: real := 0.05

  /** Scale-down keeps this many servers above the minimum. */
  const ShrinkMargin: int := 3

  // ---------------------------------------------------------------------
  // Server identities

  function DigitChar(d: nat): char
    requires d < 10
  {
    "0123456789"[d]
  }

  /** std::to_string of a non-negative number. */
  function NatToString(n: nat): string
  {
    if n < 10 then [DigitChar(n)] else NatToString(n / 10) + [DigitChar(n % 10)]
  }

  /** to_string yields a non-empty string of decimal digits. */
  lemma {:induction false} NatToStringDigits(n: nat)
    ensures |NatToString(n)| >= 1
    ensures forall i :: 0 <= i < |NatToString(n)| ==> '0' <= NatToString(n)[i] <= '9'
  {
    if n >= 10 {
      NatToStringDigits(n / 10);
    }
  }

  /** Reads a string of decimal digits back as a number. */
  function DecimalValue(s: string): nat
  {
    if s == [] then 0
    else
      var c := s[|s| - 1];
      DecimalValue(s[..|s| - 1]) * 10 + (if '0' <= c <= '9' then (c as int - '0' as int) else 0)
  }

  /** to_string loses nothing: reading its digits back gives the number. */
  lemma {:induction false} NatToStringRoundTrip(n: nat)
    ensures DecimalValue(NatToString(n)) == n
  {
    var s := NatToString(n);
    if n >= 10 {
      NatToStringRoundTrip(n / 10);
      assert s[..|s| - 1] == NatToString(n / 10);
    }
  }

  /** The address addServer gives server `id`. */
  function ServerIP(id: nat): string
  {
    "192.168.1." + NatToString(id)
  }

  /** The address is the 192.168.1 network with the ID, in decimal, as host
      part, so the ID can be read back from it. */
  lemma ServerIPHostPart(id: nat)
    ensures |ServerIP(id)| > 10 && ServerIP(id)[..10] == "192.168.1."
    ensures DecimalValue(ServerIP(id)[10..]) == id
  {
    NatToStringRoundTrip(id);
    assert ServerIP(id)[10..] == NatToString(id);
  }

  /** Servers with different IDs get different addresses. */
  lemma ServerIPInjective(a: nat, b: nat)
    requires ServerIP(a) == ServerIP(b)
    ensures a == b
  {
    ServerIPHostPart(a);
    ServerIPHostPart(b);
  }

  /** The server addServer appends when the pool holds `id - 1` servers. */
  function NewPoolServer(id: nat): Server
  {
    FreshServer(id, ServerIP(id), PoolCapacity)
  }

  /** The state of the server in slot i (0-based) of a balancer's pool: it
      is consistent, active, has capacity 5 and the identity addServer gave it. */
  predicate InSlot(s: Server, i: nat)
  {
    Wf(s) && s.isActive && s.maxCapacity == PoolCapacity
    && s.serverID == i + 1 && s.serverIP == ServerIP(i + 1)
  }

  predicate PoolWf(pool: seq<Server>)
  {
    forall i :: 0 <= i < |pool| ==> InSlot(pool[i], i)
  }

  /** A server that can take work until it is full. */
  predicate Serving(s: Server)
  {
    Wf(s) && s.isActive && s.maxCapacity >= 0
  }

  lemma PoolWfServing(pool: seq<Server>)
    requires PoolWf(pool)
    ensures forall k :: 0 <= k < |pool| ==> Serving(pool[k])
  {
    forall k | 0 <= k < |pool| ensures Serving(pool[k]) {
      assert InSlot(pool[k], k);
    }
  }

  /** The pool the constructors build: servers 1..n, all empty, each added
      by addServer after the ones before it. */
  function FreshPool(n: nat): (pool: seq<Server>)
    ensures |pool| == n
  {
    if n == 0 then [] else FreshPool(n - 1) + [NewPoolServer(n)]
  }

  /** addServer keeps a balancer's pool consistent: the new server takes
      the slot after the last. */
  lemma AppendKeepsSlots(pool: seq<Server>)
    requires PoolWf(pool)
    ensures PoolWf(pool + [NewPoolServer(|pool| + 1)])
  {
    var p := pool + [NewPoolServer(|pool| + 1)];
    forall i | 0 <= i < |p| ensures InSlot(p[i], i) {
      if i < |pool| {
        assert InSlot(pool[i], i);
      }
    }
  }

  /** Every server of a fresh pool sits in its own slot. */
  lemma {:induction false} FreshPoolWf(n: nat)
    ensures PoolWf(FreshPool(n))
  {
    if n > 0 {
      FreshPoolWf(n - 1);
      AppendKeepsSlots(FreshPool(n - 1));
    }
  }

  // ---------------------------------------------------------------------
  // Sums over the pool

  /** All resident requests of the pool. */
  function Residents(pool: seq<Server>): multiset<Request>
  {
    if pool == [] then multiset{} else multiset(pool[0].requestQueue) + Residents(pool[1..])
  }

  function TotalLoad(pool: seq<Server>): int
  {
    if pool == [] then 0 else pool[0].currentLoad + TotalLoad(pool[1..])
  }

  /** Free places left across the pool. */
  function TotalFree(pool: seq<Server>): int
  {
    if pool == [] then 0 else (pool[0].maxCapacity - pool[0].currentLoad) + TotalFree(pool[1..])
  }

  lemma {:induction false} TotalFreeNonNegative(pool: seq<Server>)
    requires forall k :: 0 <= k < |pool| ==> Serving(pool[k])
    ensures TotalFree(pool) >= 0
  {
    if pool != [] {
      TotalFreeNonNegative(pool[1..]);
    }
  }

  /** A pool of serving servers none of which accepts has no free place. */
  lemma {:induction false} NoAcceptorNoFree(pool: seq<Server>)
    requires forall k :: 0 <= k < |pool| ==> Serving(pool[k]) && !CanAccept(pool[k])
    ensures TotalFree(pool) == 0
  {
    if pool != [] {
      NoAcceptorNoFree(pool[1..]);
    }
  }

  /** Admitting one request into slot k adds it to the residents. */
  lemma {:induction false} AdmitResidents(pool: seq<Server>, k: nat, r: Request)
    requires k < |pool| && CanAccept(pool[k])
    ensures (Residents(pool[k := Admit(pool[k], r)])) == (Residents(pool)) + multiset{r}
  {
    var p := pool[k := Admit(pool[k], r)];
    if k == 0 {
      assert p[1..] == pool[1..];
    } else {
      assert p[1..] == pool[1..][k - 1 := Admit(pool[k], r)];
      AdmitResidents(pool[1..], k - 1, r);
    }
  }

  /** Admitting one request into slot k adds one to the total load. */
  lemma {:induction false} AdmitLoad(pool: seq<Server>, k: nat, r: Request)
    requires k < |pool| && CanAccept(pool[k])
    ensures TotalLoad(pool[k := Admit(pool[k], r)]) == TotalLoad(pool) + 1
  {
    var p := pool[k := Admit(pool[k], r)];
    if k == 0 {
      assert p[1..] == pool[1..];
    } else {
      assert p[1..] == pool[1..][k - 1 := Admit(pool[k], r)];
      AdmitLoad(pool[1..], k - 1, r);
    }
  }

  /** Admitting one request into slot k takes one free place. */
  lemma {:induction false} AdmitFree(pool: seq<Server>, k: nat, r: Request)
    requires k < |pool| && CanAccept(pool[k])
    ensures TotalFree(pool[k := Admit(pool[k], r)]) == TotalFree(pool) - 1
  {
    var p := pool[k := Admit(pool[k], r)];
    if k == 0 {
      assert p[1..] == pool[1..];
    } else {
      assert p[1..] == pool[1..][k - 1 := Admit(pool[k], r)];
      AdmitFree(pool[1..], k - 1, r);
    }
  }

  // ---------------------------------------------------------------------
  // Round-robin scan

  /** The slot visited at scan offset `offset` from `start`. */
  function Slot(start: nat, offset: nat, n: nat): nat
    requires n > 0
  {
    (start + offset) % n
  }

  /** Every slot is visited by some offset below the pool size. */
  lemma SlotCovers(start: nat, k: nat, n: nat)
    requires k < n
    ensures 0 <= (k - start) % n < n && Slot(start, (k - start) % n, n) == k
  {
    var o := (k - start) % n;
    var q := (k - start) / n;
    assert k - start == q * n + o;
    assert start + o == (-q) * n + k;
    Arithmetic.ModUnique(start + o, n, -q, k);
  }

  /** Distinct offsets below the pool size visit distinct slots. */
  lemma SlotsDistinct(start: nat, i: nat, j: nat, n: nat)
    requires i < n && j < n && i != j
    ensures Slot(start, i, n) != Slot(start, j, n)
  {
    var a, b := start + i, start + j;
    var qa, qb := a / n, b / n;
    assert a == qa * n + a % n;
    assert b == qb * n + b % n;
    assert a % n == b % n ==> i - j == (qa - qb) * n;
    assert qa - qb >= 1 ==> (qa - qb - 1) * n >= 0;
    assert qa - qb <= -1 ==> (qb - qa - 1) * n >= 0;
  }

  /** The cursor left after serving slot Slot(start, t) is Slot(start, t + 1). */
  lemma SlotNext(start: nat, t: nat, n: nat)
    requires n > 0
    ensures (Slot(start, t, n) + 1) % n == Slot(start, t + 1, n)
  {
    var a := start + t;
    var q, r := a / n, a % n;
    assert a == q * n + r;
    if r + 1 < n {
      Arithmetic.ModUnique(r + 1, n, 0, r + 1);
      Arithmetic.ModUnique(a + 1, n, q, r + 1);
    } else {
      Arithmetic.ModUnique(r + 1, n, 1, 0);
      Arithmetic.ModUnique(a + 1, n, q + 1, 0);
    }
  }

  /** The inner for loop of distributeRequests: the first offset, from `i`
      on, whose slot can accept a request. */
  function ScanFrom(pool: seq<Server>, start: nat, i: nat): (j: Option<nat>)
    decreases |pool| - i
    ensures j.Some? ==> i <= j.value < |pool|
  {
    if i >= |pool| then None
    else if CanAccept(pool[Slot(start, i, |pool|)]) then Some(i)
    else ScanFrom(pool, start, i + 1)
  }

  /** The scan returns the first accepting offset from i on, or None when
      none of them accepts. */
  lemma {:induction false} ScanFromFirst(pool: seq<Server>, start: nat, i: nat)
    decreases |pool| - i
    ensures var j := ScanFrom(pool, start, i);
      && (j.Some? ==> CanAccept(pool[Slot(start, j.value, |pool|)]))
      && (j.Some? ==> forall o :: i <= o < j.value ==> !CanAccept(pool[Slot(start, o, |pool|)]))
      && (j.None? ==> forall o :: i <= o < |pool| ==> !CanAccept(pool[Slot(start, o, |pool|)]))
  {
    if i < |pool| && !CanAccept(pool[Slot(start, i, |pool|)]) {
      ScanFromFirst(pool, start, i + 1);
    }
  }

  /** A full scan finds nobody exactly when no server of the pool accepts. */
  lemma ScanFindsAnyAcceptor(pool: seq<Server>, start: nat)
    ensures ScanFrom(pool, start, 0).None? <==> forall k :: 0 <= k < |pool| ==> !CanAccept(pool[k])
  {
    ScanFromFirst(pool, start, 0);
    if ScanFrom(pool, start, 0).None? {
      forall k | 0 <= k < |pool| ensures !CanAccept(pool[k]) {
        SlotCovers(start, k, |pool|);
      }
    }
  }

  // ---------------------------------------------------------------------
  // distributeRequests

  /** The first server in [lo, hi) that accepts a request. */
  function FirstAcceptor(pool: seq<Server>, lo: nat, hi: nat): (k: Option<nat>)
    requires hi <= |pool|
    decreases hi - lo
    ensures k.Some? ==> lo <= k.value < hi
  {
    if lo >= hi then None
    else if CanAccept(pool[lo]) then Some(lo)
    else FirstAcceptor(pool, lo + 1, hi)
  }

  lemma {:induction false} FirstAcceptorIsFirst(pool: seq<Server>, lo: nat, hi: nat)
    requires hi <= |pool|
    decreases hi - lo
    ensures var k := FirstAcceptor(pool, lo, hi);
      && (k.Some? ==> CanAccept(pool[k.value]))
      && (k.Some? ==> forall i :: lo <= i < k.value ==> !CanAccept(pool[i]))
      && (k.None? ==> forall i :: lo <= i < hi ==> !CanAccept(pool[i]))
  {
    if lo < hi && !CanAccept(pool[lo]) {
      FirstAcceptorIsFirst(pool, lo + 1, hi);
    }
  }

  /** The server a round-robin scan from `cursor` picks, as an index: the
      first that accepts from the cursor's slot to the end, else the first
      that accepts from the beginning up to the cursor's slot. */
  function Pick(pool: seq<Server>, cursor: nat): (k: Option<nat>)
    ensures k.Some? ==> k.value < |pool| && CanAccept(pool[k.value])
  {
    if |pool| == 0 then None
    else
      var c := cursor % |pool|;
      FirstAcceptorIsFirst(pool, c, |pool|);
      FirstAcceptorIsFirst(pool, 0, c);
      match FirstAcceptor(pool, c, |pool|)
      case Some(k) => Some(k)
      case None => FirstAcceptor(pool, 0, c)
  }

  /** The cursor after serving slot k: the next slot, wrapping at the end. */
  function Advance(k: nat, n: nat): (c: nat)
    requires k < n
    ensures c < n
  {
    if k + 1 < n then k + 1 else 0
  }

  /** A scan whose starting slot accepts picks that slot. */
  lemma PickAt(pool: seq<Server>, cursor: nat)
    requires |pool| > 0 && CanAccept(pool[cursor % |pool|])
    ensures Pick(pool, cursor) == Some(cursor % |pool|)
  {
  }

  /** Advance is the source's (k + 1) % n. */
  lemma AdvanceWraps(k: nat, n: nat)
    requires k < n
    ensures Advance(k, n) == (k + 1) % n
  {
    if k + 1 < n {
      Arithmetic.ModUnique(k + 1, n, 0, k + 1);
    } else {
      Arithmetic.ModUnique(k + 1, n, 1, 0);
    }
  }

  /** The slot at offset o, without the modulus: past the end of the pool
      the scan continues from the front. */
  lemma SlotSplit(cursor: nat, o: nat, n: nat)
    requires o < n
    ensures var c := cursor % n;
      Slot(cursor, o, n) == if c + o < n then c + o else c + o - n
  {
    var c, q := cursor % n, cursor / n;
    assert cursor == q * n + c;
    if c + o < n {
      Arithmetic.ModUnique(cursor + o, n, q, c + o);
    } else {
      Arithmetic.ModUnique(cursor + o, n, q + 1, c + o - n);
    }
  }

  /** FirstAcceptor returns m when m accepts and nobody in [lo, m) does. */
  lemma {:induction false} FirstAcceptorUnique(pool: seq<Server>, lo: nat, hi: nat, m: nat)
    requires hi <= |pool| && lo <= m < hi && CanAccept(pool[m])
    requires forall i :: lo <= i < m ==> !CanAccept(pool[i])
    decreases m - lo
    ensures FirstAcceptor(pool, lo, hi) == Some(m)
  {
    if lo < m {
      FirstAcceptorUnique(pool, lo + 1, hi, m);
    }
  }

  /** The scan of the source, by offsets taken modulo the pool size, picks
      the same server as Pick: Pick is a reference definition of it. */
  lemma ScanIsPick(pool: seq<Server>, cursor: nat)
    requires |pool| > 0
    ensures ScanFrom(pool, cursor, 0).None? ==> Pick(pool, cursor).None?
    ensures ScanFrom(pool, cursor, 0).Some? ==>
      Pick(pool, cursor) == Some(Slot(cursor, ScanFrom(pool, cursor, 0).value, |pool|))
  {
    var n, c := |pool|, cursor % |pool|;
    ScanFromFirst(pool, cursor, 0);
    ScanFindsAnyAcceptor(pool, cursor);
    PickNone(pool, cursor);
    FirstAcceptorIsFirst(pool, c, n);
    match ScanFrom(pool, cursor, 0)
    case None =>
    case Some(j) =>
      var k := Slot(cursor, j, n);
      SlotSplit(cursor, j, n);
      if c + j < n {
        forall i | c <= i < k ensures !CanAccept(pool[i]) {
          SlotSplit(cursor, i - c, n);
        }
        FirstAcceptorUnique(pool, c, n, k);
      } else {
        forall i | c <= i < n ensures !CanAccept(pool[i]) {
          SlotSplit(cursor, i - c, n);
        }
        forall i | 0 <= i < k ensures !CanAccept(pool[i]) {
          SlotSplit(cursor, i + n - c, n);
        }
        FirstAcceptorUnique(pool, 0, c, k);
      }
  }

  /** Pick finds nobody exactly when nobody accepts. */
  lemma PickNone(pool: seq<Server>, cursor: nat)
    ensures Pick(pool, cursor).None? <==> forall i :: 0 <= i < |pool| ==> !CanAccept(pool[i])
  {
    if |pool| > 0 {
      FirstAcceptorIsFirst(pool, cursor % |pool|, |pool|);
      FirstAcceptorIsFirst(pool, 0, cursor % |pool|);
    }
  }

  datatype Dispatched = Dispatched(pool: seq<Server>, queue: seq<Request>, cursor: nat)

  /** distributeRequests with `budget` attempts left: while requests wait and
      attempts remain, the queue head goes to the first accepting server of
      the scan from the cursor, and the cursor moves past that server. A scan
      that finds nobody ends the distribution. */
  function Dispatch(pool: seq<Server>, queue: seq<Request>, cursor: nat, budget: nat): (d: Dispatched)
    decreases budget
    ensures |d.pool| == |pool|
    ensures |d.queue| <= |queue|
  {
    if |queue| == 0 || budget == 0 then Dispatched(pool, queue, cursor)
    else match Pick(pool, cursor)
      case None => Dispatched(pool, queue, cursor)
      case Some(k) =>
        Dispatch(pool[k := Admit(pool[k], queue[0])], queue[1..], Advance(k, |pool|), budget - 1)
  }

  /** One step of distribution, unfolded. */
  lemma DispatchStep(pool: seq<Server>, queue: seq<Request>, cursor: nat, budget: nat, k: nat)
    requires |queue| > 0 && budget > 0 && Pick(pool, cursor) == Some(k)
    ensures k < |pool| && CanAccept(pool[k])
    ensures Dispatch(pool, queue, cursor, budget)
         == Dispatch(pool[k := Admit(pool[k], queue[0])], queue[1..], Advance(k, |pool|), budget - 1)
  {
  }

  /** After one successful step, what remains of the distribution is the
      distribution from the state that step left. */
  lemma DispatchResumes(pool: seq<Server>, queue: seq<Request>, cursor: nat, budget: nat, k: nat,
                        pool': seq<Server>, queue': seq<Request>, cursor': nat, budget': nat)
    requires |queue| > 0 && budget > 0 && Pick(pool, cursor) == Some(k)
    requires k < |pool| && pool' == pool[k := Admit(pool[k], queue[0])] && queue' == queue[1..]
    requires cursor' == Advance(k, |pool|) && budget' == budget - 1
    ensures Dispatch(pool', queue', cursor', budget') == Dispatch(pool, queue, cursor, budget)
  {
    DispatchStep(pool, queue, cursor, budget, k);
  }

  /** Admitting a request to one server keeps a balancer's pool consistent. */
  lemma AdmitKeepsSlots(pool: seq<Server>, k: nat, r: Request)
    requires PoolWf(pool) && k < |pool|
    ensures PoolWf(pool[k := Admit(pool[k], r)])
  {
    var p := pool[k := Admit(pool[k], r)];
    forall i | 0 <= i < |p| ensures InSlot(p[i], i) {
      assert InSlot(pool[i], i);
    }
  }

  /** One server's own cycle keeps a balancer's pool consistent. */
  lemma CycleKeepsSlots(pool: seq<Server>, k: nat)
    requires PoolWf(pool) && k < |pool|
    ensures PoolWf(pool[k := Cycle(pool[k])])
  {
    var p := pool[k := Cycle(pool[k])];
    forall i | 0 <= i < |p| ensures InSlot(p[i], i) {
      assert InSlot(pool[i], i);
    }
  }

  /** One attempt of distribution, stated with the source's scan: a scan
      that finds nobody ends the distribution, and one that finds offset j
      serves the slot j places after the cursor. */
  lemma ScanStep(pool: seq<Server>, queue: seq<Request>, cursor: nat, budget: nat)
    requires |pool| > 0 && |queue| > 0 && budget > 0
    ensures var j := ScanFrom(pool, cursor, 0);
      && (j.None? ==> Dispatch(pool, queue, cursor, budget) == Dispatched(pool, queue, cursor))
      && (j.Some? ==> var k := Slot(cursor, j.value, |pool|);
            && k < |pool|
            && Dispatch(pool, queue, cursor, budget)
               == Dispatch(pool[k := Admit(pool[k], queue[0])], queue[1..], Advance(k, |pool|), budget - 1))
  {
    ScanIsPick(pool, cursor);
    var j := ScanFrom(pool, cursor, 0);
    if j.Some? {
      DispatchStep(pool, queue, cursor, budget, Slot(cursor, j.value, |pool|));
    }
  }

  /** The induction step of conservation, apart from distribution itself. */
  lemma ConservesStep(pool: seq<Server>, queue: seq<Request>, k: nat, d: Dispatched)
    requires |queue| > 0 && k < |pool| && CanAccept(pool[k])
    requires Residents(d.pool) + multiset(d.queue)
          == Residents(pool[k := Admit(pool[k], queue[0])]) + multiset(queue[1..])
    ensures Residents(d.pool) + multiset(d.queue) == Residents(pool) + multiset(queue)
  {
    AdmitResidents(pool, k, queue[0]);
    assert queue == [queue[0]] + queue[1..];
  }

  /** No request is lost or duplicated: what leaves the queue is exactly what
      the servers gain. */
  lemma {:induction false} DispatchConserves(pool: seq<Server>, queue: seq<Request>, cursor: nat, budget: nat)
    ensures var d := Dispatch(pool, queue, cursor, budget);
      Residents(d.pool) + multiset(d.queue) == Residents(pool) + multiset(queue)
    decreases budget
  {
    if |queue| > 0 && budget > 0 && Pick(pool, cursor).Some? {
      var k := Pick(pool, cursor).value;
      DispatchStep(pool, queue, cursor, budget, k);
      var p := pool[k := Admit(pool[k], queue[0])];
      DispatchConserves(p, queue[1..], Advance(k, |pool|), budget - 1);
      ConservesStep(pool, queue, k, Dispatch(p, queue[1..], Advance(k, |pool|), budget - 1));
    }
  }

  /** Requests leave the admission queue from its head, in FIFO order, and
      at most one per attempt: what is left is a suffix of the queue. */
  lemma {:induction false} DispatchTakesHead(pool: seq<Server>, queue: seq<Request>, cursor: nat, budget: nat)
    ensures var d := Dispatch(pool, queue, cursor, budget);
      && |queue| - |d.queue| <= budget
      && d.queue == queue[|queue| - |d.queue|..]
    decreases budget
  {
    if |queue| > 0 && budget > 0 && Pick(pool, cursor).Some? {
      var k := Pick(pool, cursor).value;
      DispatchStep(pool, queue, cursor, budget, k);
      var p := pool[k := Admit(pool[k], queue[0])];
      DispatchTakesHead(p, queue[1..], Advance(k, |pool|), budget - 1);
      var d := Dispatch(p, queue[1..], Advance(k, |pool|), budget - 1);
      assert queue[1..][|queue| - 1 - |d.queue|..] == queue[|queue| - |d.queue|..];
    }
  }

  /** The total load rises by the number of requests moved. */
  lemma {:induction false} DispatchLoad(pool: seq<Server>, queue: seq<Request>, cursor: nat, budget: nat)
    ensures var d := Dispatch(pool, queue, cursor, budget);
      TotalLoad(d.pool) + |d.queue| == TotalLoad(pool) + |queue|
    decreases budget
  {
    if |queue| > 0 && budget > 0 && Pick(pool, cursor).Some? {
      var k := Pick(pool, cursor).value;
      DispatchStep(pool, queue, cursor, budget, k);
      AdmitLoad(pool, k, queue[0]);
      DispatchLoad(pool[k := Admit(pool[k], queue[0])], queue[1..], Advance(k, |pool|), budget - 1);
    }
  }

  /** How a server's state may change by receiving requests: only its FIFO
      (extended at the back) and its load. */
  predicate Extends(s: Server, t: Server)
  {
    t == s.(currentLoad := t.currentLoad, requestQueue := t.requestQueue)
    && s.requestQueue <= t.requestQueue
  }

  lemma ExtendsTransitive(s: Server, t: Server, u: Server)
    requires Extends(s, t) && Extends(t, u)
    ensures Extends(s, u)
  {
  }

  /** Distribution only appends to servers' FIFOs and keeps every server
      consistent. */
  lemma {:induction false} DispatchExtends(pool: seq<Server>, queue: seq<Request>, cursor: nat, budget: nat)
    ensures var d := Dispatch(pool, queue, cursor, budget);
      forall k :: 0 <= k < |pool| ==> Extends(pool[k], d.pool[k]) && (Wf(pool[k]) ==> Wf(d.pool[k]))
    decreases budget
  {
    if |queue| > 0 && budget > 0 && Pick(pool, cursor).Some? {
      var k := Pick(pool, cursor).value;
      DispatchStep(pool, queue, cursor, budget, k);
      var p := pool[k := Admit(pool[k], queue[0])];
      var d := Dispatch(p, queue[1..], Advance(k, |pool|), budget - 1);
      DispatchExtends(p, queue[1..], Advance(k, |pool|), budget - 1);
      forall i | 0 <= i < |pool| ensures Extends(pool[i], d.pool[i]) && (Wf(pool[i]) ==> Wf(d.pool[i])) {
        assert Extends(pool[i], p[i]);
        ExtendsTransitive(pool[i], p[i], d.pool[i]);
      }
    }
  }

  /** A balancer's pool stays one through distribution. */
  lemma DispatchKeepsSlots(pool: seq<Server>, queue: seq<Request>, cursor: nat, budget: nat)
    requires PoolWf(pool)
    ensures PoolWf(Dispatch(pool, queue, cursor, budget).pool)
  {
    var d := Dispatch(pool, queue, cursor, budget);
    DispatchExtends(pool, queue, cursor, budget);
    forall i | 0 <= i < |pool| ensures InSlot(d.pool[i], i) {
      assert InSlot(pool[i], i) && Extends(pool[i], d.pool[i]);
    }
  }

  /** On a pool of serving servers, distribution moves exactly as many
      requests as the queue, the attempt budget and the free places all
      allow: it stops early only when every server is full. */
  lemma {:induction false} DispatchCount(pool: seq<Server>, queue: seq<Request>, cursor: nat, budget: nat)
    requires forall k :: 0 <= k < |pool| ==> Serving(pool[k])
    ensures |queue| - |Dispatch(pool, queue, cursor, budget).queue| == Min(Min(|queue|, budget), TotalFree(pool))
    decreases budget
  {
    TotalFreeNonNegative(pool);
    if |queue| > 0 && budget > 0 {
      match Pick(pool, cursor)
      case None =>
        PickNone(pool, cursor);
        NoAcceptorNoFree(pool);
      case Some(k) =>
        var p := pool[k := Admit(pool[k], queue[0])];
        AdmitFree(pool, k, queue[0]);
        assert forall i :: 0 <= i < |p| ==> Serving(p[i]);
        TotalFreeNonNegative(p);
        DispatchCount(p, queue[1..], Advance(k, |pool|), budget - 1);
    }
  }

  /** Distribution stops with requests still waiting and attempts to spare
      only when no server can take one more. */
  lemma DispatchStopsOnlyWhenNobodyAccepts(pool: seq<Server>, queue: seq<Request>, cursor: nat, budget: nat)
    requires forall k :: 0 <= k < |pool| ==> Serving(pool[k])
    ensures var d := Dispatch(pool, queue, cursor, budget);
      |d.queue| > 0 && |queue| - |d.queue| < budget ==> forall k :: 0 <= k < |pool| ==> !CanAccept(d.pool[k])
  {
    var d := Dispatch(pool, queue, cursor, budget);
    DispatchCount(pool, queue, cursor, budget);
    DispatchLoad(pool, queue, cursor, budget);
    DispatchExtends(pool, queue, cursor, budget);
    if |d.queue| > 0 && |queue| - |d.queue| < budget {
      assert forall k :: 0 <= k < |pool| ==> Serving(d.pool[k]);
      TotalFreeNonNegative(d.pool);
      FreeAfterDispatch(pool, d.pool);
      forall k | 0 <= k < |pool| ensures !CanAccept(d.pool[k]) {
        FreeSlotCounts(d.pool, k);
      }
    }
  }

  /** Free places fall exactly as load rises when only loads change. */
  lemma {:induction false} FreeAfterDispatch(pool: seq<Server>, pool': seq<Server>)
    requires |pool'| == |pool|
    requires forall k :: 0 <= k < |pool| ==> pool'[k].maxCapacity == pool[k].maxCapacity
    ensures TotalFree(pool') == TotalFree(pool) - (TotalLoad(pool') - TotalLoad(pool))
  {
    if pool != [] {
      FreeAfterDispatch(pool[1..], pool'[1..]);
    }
  }

  /** One server with a free place gives the pool a free place. */
  lemma {:induction false} FreeSlotCounts(pool: seq<Server>, k: nat)
    requires k < |pool| && forall i :: 0 <= i < |pool| ==> Serving(pool[i])
    ensures CanAccept(pool[k]) ==> TotalFree(pool) >= 1
  {
    TotalFreeNonNegative(pool[1..]);
    if k > 0 {
      FreeSlotCounts(pool[1..], k - 1);
    }
  }

  /** The pool after the first t steps of a round of distribution in which
      offset o from the cursor receives the o-th queued request. */
  function Assigned(pool: seq<Server>, queue: seq<Request>, cursor: nat, t: nat): (p: seq<Server>)
    requires |pool| > 0 && t <= |queue|
    ensures |p| == |pool|
  {
    if t == 0 then pool
    else
      var prev := Assigned(pool, queue, cursor, t - 1);
      var s := Slot(cursor, t - 1, |pool|);
      prev[s := Admit(prev[s], queue[t - 1])]
  }

  lemma {:induction false} AssignedAt(pool: seq<Server>, queue: seq<Request>, cursor: nat, t: nat, o: nat)
    requires 0 < |pool| && t <= |queue| && t <= |pool| && o < |pool|
    ensures Assigned(pool, queue, cursor, t)[Slot(cursor, o, |pool|)]
         == if o < t then Admit(pool[Slot(cursor, o, |pool|)], queue[o]) else pool[Slot(cursor, o, |pool|)]
  {
    if t > 0 {
      AssignedAt(pool, queue, cursor, t - 1, o);
      if o != t - 1 {
        SlotsDistinct(cursor, o, t - 1, |pool|);
      } else {
        AssignedAt(pool, queue, cursor, t - 1, t - 1);
      }
    }
  }

  /** The cursor before step t of a round, reduced to a slot, and after it. */
  lemma CursorAt(cursor: nat, t: nat, n: nat)
    requires t < n
    ensures (if t == 0 then cursor else Slot(cursor, t, n)) % n == Slot(cursor, t, n)
    ensures Advance(Slot(cursor, t, n), n) == Slot(cursor, t + 1, n)
  {
    var k := Slot(cursor, t, n);
    Arithmetic.ModUnique(k, n, 0, k);
    SlotNext(cursor, t, n);
    AdvanceWraps(k, n);
  }

  /** Step t of a round: the request at offset t goes to slot
      Slot(cursor, t), which has not been served yet in this round. */
  lemma RoundRobinStep(pool: seq<Server>, queue: seq<Request>, cursor: nat, t: nat, budget: nat)
    requires 0 < |pool| == |queue| && t < |pool| && budget > 0
    requires forall k :: 0 <= k < |pool| ==> CanAccept(pool[k])
    ensures Dispatch(Assigned(pool, queue, cursor, t), queue[t..], if t == 0 then cursor else Slot(cursor, t, |pool|), budget)
         == Dispatch(Assigned(pool, queue, cursor, t + 1), queue[t + 1..], Slot(cursor, t + 1, |pool|), budget - 1)
  {
    var n := |pool|;
    var c := if t == 0 then cursor else Slot(cursor, t, n);
    var p := Assigned(pool, queue, cursor, t);
    var k := Slot(cursor, t, n);
    CursorAt(cursor, t, n);
    AssignedAt(pool, queue, cursor, t, t);
    PickAt(p, c);
    DispatchStep(p, queue[t..], c, budget, k);
    assert queue[t..][1..] == queue[t + 1..];
  }

  /** The remaining rounds, from step t on, of a distribution in which every
      server accepts its one request. */
  lemma {:induction false} RoundRobinFrom(pool: seq<Server>, queue: seq<Request>, cursor: nat, t: nat, budget: nat)
    requires 0 < |pool| == |queue| && t <= |pool| && budget >= |pool| - t
    requires forall k :: 0 <= k < |pool| ==> CanAccept(pool[k])
    ensures Dispatch(Assigned(pool, queue, cursor, t), queue[t..], if t == 0 then cursor else Slot(cursor, t, |pool|), budget)
         == Dispatched(Assigned(pool, queue, cursor, |pool|), [], Slot(cursor, |pool|, |pool|))
    decreases |pool| - t
  {
    if t == |pool| {
      assert queue[t..] == [];
    } else {
      RoundRobinStep(pool, queue, cursor, t, budget);
      RoundRobinFrom(pool, queue, cursor, t + 1, budget - 1);
    }
  }

  /** Round-robin: with as many queued requests as servers and every server
      able to take one, each server receives exactly one, visited in
      increasing cyclic order from the cursor, and the queue empties. */
  lemma RoundRobin(pool: seq<Server>, queue: seq<Request>, cursor: nat)
    requires 0 < |pool| == |queue|
    requires forall k :: 0 <= k < |pool| ==> CanAccept(pool[k])
    ensures var d := Dispatch(pool, queue, cursor, 2 * |pool|);
      d.queue == [] && d.cursor == cursor % |pool|
      && forall o :: 0 <= o < |pool| ==>
           d.pool[Slot(cursor, o, |pool|)] == Admit(pool[Slot(cursor, o, |pool|)], queue[o])
  {
    RoundRobinFrom(pool, queue, cursor, 0, 2 * |pool|);
    assert queue[0..] == queue;
    FullCircle(cursor, |pool|);
    AssignedRound(pool, queue, cursor);
  }

  lemma FullCircle(cursor: nat, n: nat)
    requires n > 0
    ensures Slot(cursor, n, n) == cursor % n
  {
    Arithmetic.ModUnique(cursor + n, n, cursor / n + 1, cursor % n);
  }

  /** After a whole round, offset o from the cursor holds the o-th request. */
  lemma AssignedRound(pool: seq<Server>, queue: seq<Request>, cursor: nat)
    requires 0 < |pool| == |queue|
    ensures forall o :: 0 <= o < |pool| ==>
      Assigned(pool, queue, cursor, |pool|)[Slot(cursor, o, |pool|)] == Admit(pool[Slot(cursor, o, |pool|)], queue[o])
  {
    forall o | 0 <= o < |pool|
      ensures Assigned(pool, queue, cursor, |pool|)[Slot(cursor, o, |pool|)] == Admit(pool[Slot(cursor, o, |pool|)], queue[o])
    {
      AssignedAt(pool, queue, cursor, |pool|, o);
    }
  }

  /** The attempt budget, not capacity, limits a cycle: two empty servers of
      capacity 5 facing ten queued requests receive only four of them. */
  lemma BudgetLimitsDispatch(pool: seq<Server>, queue: seq<Request>, cursor: nat)
    requires |pool| == 2 && PoolWf(pool) && pool[0].currentLoad == 0 && pool[1].currentLoad == 0
    requires |queue| == 10
    ensures |Dispatch(pool, queue, cursor, 2 * |pool|).queue| == 6
  {
    PoolWfServing(pool);
    assert InSlot(pool[0], 0) && InSlot(pool[1], 1);
    assert TotalFree(pool) == 10 by {
      assert pool[1..][0] == pool[1] && pool[1..][1..] == [];
      assert TotalFree(pool[1..]) == 5 + TotalFree(pool[1..][1..]);
    }
    DispatchCount(pool, queue, cursor, 2 * |pool|);
  }

  // ---------------------------------------------------------------------
  // processCycle of every server

  /** Every server after its own processCycle (an inactive one is left
      alone, as the balancer skips it). */
  function AdvanceAll(pool: seq<Server>): seq<Server>
  {
    seq(|pool|, k requires 0 <= k < |pool| => Cycle(pool[k]))
  }

  /** Advancing keeps every server's identity, capacity and status, and an
      inactive server is skipped: it is left exactly as it was. */
  lemma AdvanceAllSkipsInactive(pool: seq<Server>, k: nat)
    requires k < |pool|
    ensures var p := AdvanceAll(pool);
      && p[k].serverID == pool[k].serverID && p[k].serverIP == pool[k].serverIP
      && p[k].maxCapacity == pool[k].maxCapacity && p[k].isActive == pool[k].isActive
      && (!pool[k].isActive ==> p[k] == pool[k])
  {
  }

  /** Advancing the next server of a partly advanced pool advances one more
      prefix server. */
  lemma AdvanceAllStep(pool: seq<Server>, i: nat)
    requires i < |pool|
    ensures (AdvanceAll(pool[..i]) + pool[i..])[i := Cycle(pool[i])] == AdvanceAll(pool[..i + 1]) + pool[i + 1..]
  {
    var before := AdvanceAll(pool[..i]) + pool[i..];
    var after := AdvanceAll(pool[..i + 1]) + pool[i + 1..];
    assert |before| == |after| == |pool|;
    forall j | 0 <= j < |pool| ensures before[i := Cycle(pool[i])][j] == after[j] {
      if j < i {
        assert before[j] == AdvanceAll(pool[..i])[j] == Cycle(pool[j]);
        assert after[j] == AdvanceAll(pool[..i + 1])[j] == Cycle(pool[j]);
      } else if j > i {
        assert before[j] == pool[i..][j - i] == pool[j];
        assert after[j] == pool[i + 1..][j - i - 1] == pool[j];
      }
    }
  }

  /** The completions the servers report in one pass. */
  function CompletedSum(pool: seq<Server>): nat
  {
    if pool == [] then 0 else Completed(pool[0]) + CompletedSum(pool[1..])
  }

  /** Advancing every server removes exactly the completed requests from the
      total load, and keeps a balancer's pool consistent. */
  lemma {:induction false} AdvanceAllConserves(pool: seq<Server>)
    requires forall k :: 0 <= k < |pool| ==> Wf(pool[k])
    ensures TotalLoad(AdvanceAll(pool)) + CompletedSum(pool) == TotalLoad(pool)
    ensures PoolWf(pool) ==> PoolWf(AdvanceAll(pool))
  {
    if pool != [] {
      AdvanceAllConserves(pool[1..]);
      assert AdvanceAll(pool)[1..] == AdvanceAll(pool[1..]);
    }
    if PoolWf(pool) {
      forall i | 0 <= i < |pool| ensures InSlot(AdvanceAll(pool)[i], i) {
        assert InSlot(pool[i], i);
      }
    }
  }

  // ---------------------------------------------------------------------
  // Utilization and scaling

  function ActiveCount(pool: seq<Server>): (n: nat)
    ensures n <= |pool|
  {
    if pool == [] then 0 else (if pool[0].isActive then 1 else 0) + ActiveCount(pool[1..])
  }

  /** The utilizations of the active servers, added up. */
  function UtilizationSum(pool: seq<Server>): (u: real)
    ensures (forall k :: 0 <= k < |pool| ==> Wf(pool[k]) && pool[k].maxCapacity > 0)
            ==> 0.0 <= u <= 100.0 * ActiveCount(pool) as real
  {
    if pool == [] then 0.0
    else (if pool[0].isActive then Utilization(pool[0]) else 0.0) + UtilizationSum(pool[1..])
  }

  /** getSystemUtilization: the mean utilization of the active servers, 0 if
      there are none. */
  function SystemUtilization(pool: seq<Server>): (u: real)
    ensures (forall k :: 0 <= k < |pool| ==> Wf(pool[k]) && pool[k].maxCapacity > 0) ==> 0.0 <= u <= 100.0
  {
    if |pool| == 0 then 0.0
    else
      var active := ActiveCount(pool);
      if active > 0 then
        var u := UtilizationSum(pool) / active as real;
        if forall k :: 0 <= k < |pool| ==> Wf(pool[k]) && pool[k].maxCapacity > 0 then
          Arithmetic.MeanBounds(UtilizationSum(pool), active as real, 100.0);
          u
        else u
      else 0.0
  }

  /** A sum of utilizations above x per active server has an active server
      above x. */
  lemma {:induction false} SomeServerAboveMean(pool: seq<Server>)
    requires UtilizationSum(pool) > 90.0 * ActiveCount(pool) as real
    ensures exists k :: 0 <= k < |pool| && pool[k].isActive && Utilization(pool[k]) > 90.0
  {
    if pool == [] {
      assert false;
    } else if pool[0].isActive && Utilization(pool[0]) > 90.0 {
      assert pool[0].isActive && Utilization(pool[0]) > 90.0;
    } else {
      SomeServerAboveMean(pool[1..]);
      var k :| 0 <= k < |pool[1..]| && pool[1..][k].isActive && Utilization(pool[1..][k]) > 90.0;
      assert pool[k + 1] == pool[1..][k];
    }
  }

  /** isOverloaded: mean server utilization above 90 % or the admission queue
      (of the balancer's default size) more than 80 % full. */
  predicate Overloaded(pool: seq<Server>, queueSize: int)
    ensures Overloaded(pool, queueSize) <==> SystemUtilization(pool) > 90.0 || queueSize > 800
  {
    SystemUtilization(pool) > 90.0 || Queues.QueueUtilization(queueSize, Queues.DefaultMaxSize) > 80.0
  }

  /** With servers of capacity 5, an overloaded balancer has a completely
      full server or more than 800 waiting requests. */
  lemma OverloadedMeansFullServerOrLongQueue(pool: seq<Server>, queueSize: int)
    requires PoolWf(pool)
    requires Overloaded(pool, queueSize)
    ensures (exists k :: 0 <= k < |pool| && pool[k].currentLoad == PoolCapacity) || queueSize > 800
  {
    if SystemUtilization(pool) > 90.0 {
      var active := ActiveCount(pool);
      assert |pool| > 0 && active > 0;
      Arithmetic.MeanAbove(UtilizationSum(pool), active as real, 90.0);
      SomeServerAboveMean(pool);
      var k :| 0 <= k < |pool| && pool[k].isActive && Utilization(pool[k]) > 90.0;
      assert InSlot(pool[k], k);
      Arithmetic.PercentFacts(pool[k].currentLoad as real, PoolCapacity as real, Utilization(pool[k]), 90.0);
    }
  }

  /** checkLoadBalancing on values: nothing on an empty pool; otherwise one
      server is appended when utilization (as a fraction) is above the
      threshold or more than 10 requests wait, and the pool is below its
      maximum; then the last server is dropped, with whatever it still holds,
      when utilization is below 5 % of the threshold, the queue is empty and
      more than minServers + 3 servers remain. */
  function Scale(pool: seq<Server>, queueSize: int, threshold: real, minServers: int, maxServers: int): (s: seq<Server>)
    ensures |pool| == 0 ==> s == pool
    ensures |pool| - 1 <= |s| <= |pool| + 1
    ensures |s| == |pool| + 1 ==> s == pool + [NewPoolServer(|pool| + 1)]
    ensures |s| <= |pool| ==> s == pool[..|s|]
  {
    if |pool| == 0 then pool
    else
      var avgUtilization := SystemUtilization(pool) / 100.0;
      var grown := if (avgUtilization > threshold || queueSize > GrowQueueLength) && |pool| < maxServers
                   then pool + [NewPoolServer(|pool| + 1)]
                   else pool;
      if avgUtilization < threshold * ShrinkFraction && queueSize == 0 && |grown| > minServers + ShrinkMargin
      then grown[..|grown| - 1]
      else grown
  }

  /** Scaling moves the pool size by at most one per cycle, grows exactly
      when the scale-up rule fires and shrinks exactly when the scale-down
      rule fires (the two cannot both fire, since utilization is never
      negative), leaves the servers it keeps untouched, and never leaves the
      range [minServers, maxServers] once inside it. */
  lemma ScaleStepsByAtMostOne(pool: seq<Server>, queueSize: int, threshold: real, minServers: int, maxServers: int)
    requires forall k :: 0 <= k < |pool| ==> Wf(pool[k]) && pool[k].maxCapacity > 0
    ensures var s := Scale(pool, queueSize, threshold, minServers, maxServers);
      var avg := SystemUtilization(pool) / 100.0;
      && (|s| == |pool| + 1 <==> |pool| > 0 && (avg > threshold || queueSize > GrowQueueLength) && |pool| < maxServers)
      && (|s| == |pool| - 1 <==> |pool| > 0 && avg < threshold * ShrinkFraction && queueSize == 0 && |pool| > minServers + ShrinkMargin)
      && |pool| - 1 <= |s| <= |pool| + 1
      && s[..Min(|s|, |pool|)] == pool[..Min(|s|, |pool|)]
      && (|pool| <= maxServers ==> |s| <= maxServers)
      && (|pool| >= minServers ==> |s| >= minServers)
  {
    var avg := SystemUtilization(pool) / 100.0;
    assert 0.0 <= avg;
    var s := Scale(pool, queueSize, threshold, minServers, maxServers);
    if |pool| > 0 && (avg > threshold || queueSize > GrowQueueLength) && |pool| < maxServers {
      assert !(avg < threshold * ShrinkFraction && queueSize == 0);
      assert s == pool + [NewPoolServer(|pool| + 1)];
      assert s[..|pool|] == pool;
    }
  }

  /** Scaling keeps a balancer's pool consistent: a new server takes the
      next identity. */
  lemma ScaleKeepsSlots(pool: seq<Server>, queueSize: int, threshold: real, minServers: int, maxServers: int)
    requires PoolWf(pool)
    ensures PoolWf(Scale(pool, queueSize, threshold, minServers, maxServers))
  {
    var s := Scale(pool, queueSize, threshold, minServers, maxServers);
    forall i | 0 <= i < |s| ensures InSlot(s[i], i) {
      if i < |pool| {
        assert InSlot(pool[i], i);
      }
    }
  }

  /** Appending a server adds its load. */
  lemma {:induction false} TotalLoadAppend(pool: seq<Server>, s: Server)
    ensures TotalLoad(pool + [s]) == TotalLoad(pool) + s.currentLoad
  {
    if pool != [] {
      assert (pool + [s])[1..] == pool[1..] + [s];
      TotalLoadAppend(pool[1..], s);
    }
  }

  /** Scaling never adds load: a new server is empty, and dropping the last
      server loses exactly what it still held. */
  lemma ScaleLoad(pool: seq<Server>, queueSize: int, threshold: real, minServers: int, maxServers: int)
    requires PoolWf(pool)
    ensures var s := Scale(pool, queueSize, threshold, minServers, maxServers);
      |s| >= |pool| ==> TotalLoad(s) == TotalLoad(pool)
    ensures var s := Scale(pool, queueSize, threshold, minServers, maxServers);
      |s| < |pool| ==> TotalLoad(s) + pool[|pool| - 1].currentLoad == TotalLoad(pool)
  {
    var s := Scale(pool, queueSize, threshold, minServers, maxServers);
    ScaleStepsByAtMostOne(pool, queueSize, threshold, minServers, maxServers);
    PoolWfServing(pool);
    if |s| == |pool| + 1 {
      assert s == pool + [NewPoolServer(|pool| + 1)];
      TotalLoadAppend(pool, NewPoolServer(|pool| + 1));
    } else if |s| == |pool| - 1 {
      assert s == pool[..|pool| - 1];
      assert pool == s + [pool[|pool| - 1]];
      TotalLoadAppend(s, pool[|pool| - 1]);
    } else {
      assert s == pool[..|pool|] == pool;
    }
  }

  datatype Cycled = Cycled(pool: seq<Server>, queue: seq<Request>, cursor: nat, completed: nat)

  /** processCycle of the balancer: every active server advances one cycle,
      the admission queue is distributed with a budget of two attempts per
      server, and the pool is scaled against the queue that is left. The
      completions counted are those of the servers' own cycles. */
  function BalancerCycle(pool: seq<Server>, queue: seq<Request>, cursor: nat,
                         threshold: real, minServers: int, maxServers: int): (c: Cycled)
    ensures |c.queue| <= |queue| && |queue| - |c.queue| <= 2 * |pool|
    ensures c.queue == queue[|queue| - |c.queue|..]
    ensures |pool| - 1 <= |c.pool| <= |pool| + 1
  {
    var advanced := AdvanceAll(pool);
    var d := Dispatch(advanced, queue, cursor, 2 * |advanced|);
    DispatchTakesHead(advanced, queue, cursor, 2 * |advanced|);
    Cycled(Scale(d.pool, |d.queue|, threshold, minServers, maxServers), d.queue, d.cursor, CompletedSum(pool))
  }

  /** A balancer's cycle keeps the pool consistent, and accounts for every
      request: resident plus waiting plus completed is what was resident and
      waiting before, except for the requests still held by a server that
      scaling removes. */
  lemma BalancerCycleAccounts(pool: seq<Server>, queue: seq<Request>, cursor: nat,
                              threshold: real, minServers: int, maxServers: int)
    requires PoolWf(pool)
    ensures var c := BalancerCycle(pool, queue, cursor, threshold, minServers, maxServers);
      && PoolWf(c.pool)
      && TotalLoad(c.pool) + |c.queue| + c.completed <= TotalLoad(pool) + |queue|
      && (|c.pool| >= |pool| ==> TotalLoad(c.pool) + |c.queue| + c.completed == TotalLoad(pool) + |queue|)
  {
    var advanced := AdvanceAll(pool);
    var d := Dispatch(advanced, queue, cursor, 2 * |advanced|);
    PoolWfServing(pool);
    AdvanceAllConserves(pool);
    DispatchKeepsSlots(advanced, queue, cursor, 2 * |advanced|);
    DispatchLoad(advanced, queue, cursor, 2 * |advanced|);
    ScaleKeepsSlots(d.pool, |d.queue|, threshold, minServers, maxServers);
    ScaleLoad(d.pool, |d.queue|, threshold, minServers, maxServers);
    PoolWfServing(d.pool);
  }
}
