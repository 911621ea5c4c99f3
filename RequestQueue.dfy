/** The admission queue: a bounded FIFO in front of the server pool, guarded
    by a list of blocked client addresses. Despite its class comment it has no
    priority ordering: requests leave in the order they were accepted. */
module Queues {
  import opened Requests
  import Arithmetic

  /** Capacity given by the default constructor. */
  const DefaultMaxSize: int := 1000

  predicate NoDuplicates(s: seq<string>)
  {
    forall i, j :: 0 <= i < j < |s| ==> s[i] != s[j]
  }

  /** A duplicate-free list holds each entry at most once. */
  lemma {:induction false} NoDuplicatesCount(s: seq<string>, x: string)
    ensures NoDuplicates(s) ==> multiset(s)[x] <= 1
  {
    if s != [] && NoDuplicates(s) {
      assert NoDuplicates(s[1..]) by {
        forall i, j | 0 <= i < j < |s| - 1 ensures s[1..][i] != s[1..][j] {
          assert s[1..][i] == s[i + 1] && s[1..][j] == s[j + 1];
        }
      }
      NoDuplicatesCount(s[1..], x);
      assert s == [s[0]] + s[1..];
      if s[0] == x {
        assert x !in s[1..] by {
          forall i | 0 <= i < |s| - 1 ensures s[1..][i] != x {
            assert s[1..][i] == s[i + 1];
          }
        }
      }
    }
  }

  /** std::find over the block-list: the index of the first occurrence of `x`,
      or |s| (the end position) when there is none. */
  method Find(s: seq<string>, x: string) returns (k: nat)
    ensures k <= |s|
    ensures k < |s| ==> s[k] == x
    ensures x !in s[..k]
  {
    k := 0;
    while k < |s| && s[k] != x
      invariant k <= |s|
      invariant x !in s[..k]
    {
      k := k + 1;
    }
  }

  /** The list after erasing the first occurrence of `x`, if there is one. */
  function Without(s: seq<string>, x: string): (r: seq<string>)
    ensures x in s ==> |r| == |s| - 1
    ensures x !in s ==> r == s
  {
    if s == [] then []
    else if s[0] == x then s[1..]
    else [s[0]] + Without(s[1..], x)
  }

  /** Erasing at the position std::find reports is erasing the first occurrence. */
  lemma {:induction false} WithoutAt(s: seq<string>, x: string, k: nat)
    requires k <= |s|
    requires k < |s| ==> s[k] == x
    requires x !in s[..k]
    ensures Without(s, x) == if k < |s| then s[..k] + s[k + 1..] else s
  {
    if k == |s| {
      assert s[..k] == s;
    } else if k == 0 {
      assert s[..k] + s[k + 1..] == s[1..];
    } else {
      assert s[0] != x by { assert s[0] == s[..k][0]; }
      assert x !in s[1..][..k - 1] by { assert s[1..][..k - 1] == s[..k][1..]; }
      WithoutAt(s[1..], x, k - 1);
      assert Without(s, x) == [s[0]] + (s[1..][..k - 1] + s[1..][k..]);
      assert s[..k] == [s[0]] + s[1..][..k - 1];
      assert s[k + 1..] == s[1..][k..];
    }
  }

  /** On a duplicate-free list, erasing `x` removes it entirely, keeps the
      list duplicate-free and keeps every other address. */
  lemma {:induction false} WithoutRemoves(s: seq<string>, x: string)
    requires NoDuplicates(s)
    ensures NoDuplicates(Without(s, x))
    ensures x !in Without(s, x)
    ensures forall y :: y != x ==> (y in Without(s, x) <==> y in s)
  {
    if s != [] {
      assert NoDuplicates(s[1..]) by {
        forall i, j | 0 <= i < j < |s| - 1 ensures s[1..][i] != s[1..][j] {
          assert s[1..][i] == s[i + 1] && s[1..][j] == s[j + 1];
        }
      }
      if s[0] == x {
        assert x !in s[1..] by {
          forall i | 0 <= i < |s| - 1 ensures s[1..][i] != x {
            assert s[1..][i] == s[i + 1];
          }
        }
      } else {
        WithoutRemoves(s[1..], x);
        var w := Without(s[1..], x);
        assert s[0] !in s[1..] by {
          forall i | 0 <= i < |s| - 1 ensures s[1..][i] != s[0] {
            assert s[1..][i] == s[i + 1];
          }
        }
        assert s[0] !in w;
        forall i, j | 0 <= i < j < |[s[0]] + w| ensures ([s[0]] + w)[i] != ([s[0]] + w)[j] {
          if i == 0 {
            assert ([s[0]] + w)[j] == w[j - 1];
          } else {
            assert ([s[0]] + w)[i] == w[i - 1] && ([s[0]] + w)[j] == w[j - 1];
          }
        }
      }
    }
  }

  /** getUtilization: the fill level as a percentage, 0 when maxSize is 0. */
  function QueueUtilization(size: int, maxSize: int): (u: real)
    ensures 0 <= size <= maxSize ==> 0.0 <= u <= 100.0
    ensures maxSize > 0 ==> (u > 80.0 <==> 5 * size > 4 * maxSize)
  {
    if maxSize == 0 then 0.0
    else
      var u := (size as real / maxSize as real) * 100.0;
      if maxSize > 0 then
        Arithmetic.PercentFacts(size as real, maxSize as real, u, 80.0);
        u
      else u
  }

  /** The queue object: the fields of RequestQueue.h, updated in place. */
  class RequestQueue {
    var requestQueue: seq<Request>
    const maxSize: int
    var totalRequestsAdded: int
    var totalRequestsRemoved: int
    var blockedIPs: seq<string>

    ghost predicate Valid()
      reads this
    {
      (|requestQueue| == 0 || |requestQueue| <= maxSize) && NoDuplicates(blockedIPs)
    }

    /** The running totals account for every request still queued. Adding
        and removing keep this; clear() does not. */
    ghost predicate Balanced()
      reads this
    {
      totalRequestsAdded == totalRequestsRemoved + |requestQueue|
    }

    constructor ()
      ensures Valid() && Balanced()
      ensures maxSize == DefaultMaxSize && requestQueue == [] && blockedIPs == []
      ensures totalRequestsAdded == 0 && totalRequestsRemoved == 0
    {
      requestQueue, maxSize := [], DefaultMaxSize;
      totalRequestsAdded, totalRequestsRemoved, blockedIPs := 0, 0, [];
    }

    constructor WithMaxSize(maxQueueSize: int)
      ensures Valid() && Balanced()
      ensures maxSize == maxQueueSize && requestQueue == [] && blockedIPs == []
      ensures totalRequestsAdded == 0 && totalRequestsRemoved == 0
    {
      requestQueue, maxSize := [], maxQueueSize;
      totalRequestsAdded, totalRequestsRemoved, blockedIPs := 0, 0, [];
    }

    /** An empty queue reports 0 % utilization, and only an empty one does;
        a queue of non-positive capacity never holds anything. */
    function IsEmpty(): (e: bool)
      reads this
      ensures maxSize != 0 ==> (e <==> GetUtilization() == 0.0)
      ensures Valid() && maxSize <= 0 ==> e
    {
      |requestQueue| == 0
    }

    /** The `>=` test is being exactly at capacity, since the size never
        passes a non-negative maxSize. */
    function IsFull(): (f: bool)
      reads this
      ensures Valid() && maxSize >= 0 ==> (f <==> |requestQueue| == maxSize)
    {
      |requestQueue| >= maxSize
    }

    function GetSize(): int
      reads this
    {
      |requestQueue|
    }

    /** std::find over the block-list; a blocked address is listed exactly
        once. */
    function IsIPBlocked(ip: string): (b: bool)
      reads this
      ensures !b ==> multiset(blockedIPs)[ip] == 0
      ensures Valid() && b ==> multiset(blockedIPs)[ip] == 1
    {
      NoDuplicatesCount(blockedIPs, ip);
      ip in blockedIPs
    }

    function GetUtilization(): (u: real)
      reads this
      ensures Valid() && maxSize > 0 ==> 0.0 <= u <= 100.0
      ensures maxSize > 0 ==> (u > 80.0 <==> 5 * |requestQueue| > 4 * maxSize)
    {
      QueueUtilization(|requestQueue|, maxSize)
    }

    /** A blocked address is refused before capacity is looked at, so it is
        refused even when there is room. A refusal changes nothing. */
    method AddRequest(request: Request) returns (added: bool)
      requires Valid()
      modifies this
      ensures Valid()
      ensures added == (old(!IsIPBlocked(request.clientIP)) && old(|requestQueue|) < maxSize)
      ensures requestQueue == if added then old(requestQueue) + [request] else old(requestQueue)
      ensures totalRequestsAdded == old(totalRequestsAdded) + (if added then 1 else 0)
      ensures totalRequestsRemoved == old(totalRequestsRemoved) && blockedIPs == old(blockedIPs)
      ensures old(Balanced()) ==> Balanced()
    {
      if IsIPBlocked(request.clientIP) {
        return false;
      }
      if IsFull() {
        return false;
      }
      requestQueue := requestQueue + [request];
      totalRequestsAdded := totalRequestsAdded + 1;
      return true;
    }

    /** Takes the oldest request. On an empty queue it returns the default
        request instead and changes nothing. */
    method GetNextRequest(now: TimePoint) returns (next: Request)
      requires Valid()
      modifies this
      ensures Valid()
      ensures old(requestQueue) == [] ==> next == DefaultRequest(now) && requestQueue == []
      ensures old(requestQueue) != [] ==> next == old(requestQueue)[0] && requestQueue == old(requestQueue)[1..]
      ensures totalRequestsRemoved == old(totalRequestsRemoved) + (if old(requestQueue) == [] then 0 else 1)
      ensures totalRequestsAdded == old(totalRequestsAdded) && blockedIPs == old(blockedIPs)
      ensures old(Balanced()) ==> Balanced()
    {
      if IsEmpty() {
        return DefaultRequest(now);
      }
      next := requestQueue[0];
      requestQueue := requestQueue[1..];
      totalRequestsRemoved := totalRequestsRemoved + 1;
    }

    /** Pops every queued request without counting it as removed. */
    method Clear()
      requires Valid()
      modifies this
      ensures Valid()
      ensures requestQueue == [] && blockedIPs == old(blockedIPs)
      ensures totalRequestsAdded == old(totalRequestsAdded) && totalRequestsRemoved == old(totalRequestsRemoved)
      ensures old(Balanced()) && old(|requestQueue|) > 0 ==> !Balanced()
    {
      while |requestQueue| > 0
        invariant |requestQueue| <= old(|requestQueue|)
        invariant blockedIPs == old(blockedIPs)
        invariant totalRequestsAdded == old(totalRequestsAdded) && totalRequestsRemoved == old(totalRequestsRemoved)
        decreases |requestQueue|
      {
        requestQueue := requestQueue[1..];
      }
    }

    /** Idempotent: an address already blocked is not added twice. */
    method BlockIP(ip: string)
      requires Valid()
      modifies this
      ensures Valid() && IsIPBlocked(ip)
      ensures blockedIPs == if old(IsIPBlocked(ip)) then old(blockedIPs) else old(blockedIPs) + [ip]
      ensures requestQueue == old(requestQueue)
      ensures totalRequestsAdded == old(totalRequestsAdded) && totalRequestsRemoved == old(totalRequestsRemoved)
    {
      if !IsIPBlocked(ip) {
        blockedIPs := blockedIPs + [ip];
      }
    }

    /** Erases the address found by std::find, if any; requests already
        queued from it stay queued. */
    method UnblockIP(ip: string)
      requires Valid()
      modifies this
      ensures Valid() && !IsIPBlocked(ip)
      ensures blockedIPs == Without(old(blockedIPs), ip)
      ensures forall y :: y != ip ==> (y in blockedIPs <==> y in old(blockedIPs))
      ensures requestQueue == old(requestQueue)
      ensures totalRequestsAdded == old(totalRequestsAdded) && totalRequestsRemoved == old(totalRequestsRemoved)
    {
      var it := Find(blockedIPs, ip);
      WithoutAt(blockedIPs, ip, it);
      WithoutRemoves(blockedIPs, ip);
      if it < |blockedIPs| {
        blockedIPs := blockedIPs[..it] + blockedIPs[it + 1..];
      }
    }
  }
}
