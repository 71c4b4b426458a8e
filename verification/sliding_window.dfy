/**
 A per-user sliding-window rate limiter.

 The limiter keeps, for every user id, a queue of the timestamps of that
 user's admitted requests, oldest first. Expired timestamps are removed
 lazily, from the front of the queue, whenever the user is inspected; a
 timestamp `t` is expired at time `now` when `t <= now - windowSize`, so the
 live window is the half-open interval `(now - windowSize, now]`.

 The clock is not read here: every operation takes the current time `now`
 as an argument. Times are mathematical reals.
 */
module SlidingWindow {

  /** The limiter's state: its two configuration values and the queues. */
  datatype Limiter = Limiter(
    windowSize: real,
    maxRequests: int,
    userRequests: map<string, seq<real>>
  )

  /** The new state after an admission query, and the query's answer. */
  datatype Decision = Decision(limiter: Limiter, allowed: bool)

  /** Timestamps are stored in non-decreasing order. */
  ghost predicate Sorted(q: seq<real>)
  {
    forall i, j :: 0 <= i <= j < |q| ==> q[i] <= q[j]
  }

  /** Every stored queue is non-empty and ordered oldest first. */
  ghost predicate Valid(l: Limiter)
  {
    forall u :: u in l.userRequests ==> l.userRequests[u] != [] && Sorted(l.userRequests[u])
  }

  /** The queue stored for `u`; a user with no entry has an empty one. */
  function Queue(l: Limiter, u: string): seq<real>
  {
    if u in l.userRequests then l.userRequests[u] else []
  }

  /** The number of timestamps stored for `u`. */
  function RequestCount(l: Limiter, u: string): nat
  {
    |Queue(l, u)|
  }

  /**
   Reference definition of the live part of a queue: the timestamps that are
   strictly newer than `cutoff`, in their original order, wherever they sit.
   */
  function Live(q: seq<real>, cutoff: real): (r: seq<real>)
    ensures |r| <= |q|
    ensures forall i :: 0 <= i < |r| ==> r[i] > cutoff
  {
    if q == [] then []
    else if q[0] > cutoff then [q[0]] + Live(q[1..], cutoff)
    else Live(q[1..], cutoff)
  }

  /** Total number of timestamps held by the limiter, over all users. */
  ghost function TotalStored(m: map<string, seq<real>>): nat
    decreases |m|
  {
    if m == map[] then 0
    else
      var u :| u in m;
      |m[u]| + TotalStored(m - {u})
  }

  /**
   The limiter as constructed: it stores its two arguments and starts with
   no queues, so every user is admitted exactly when the capacity is positive.
   */
  function Init(windowSize: real := 10.0, maxRequests: int := 1): (l: Limiter)
    ensures l.windowSize == windowSize && l.maxRequests == maxRequests
    ensures Valid(l)
    ensures forall u, now :: CanSendMessage(l, u, now).allowed <==> 0 < maxRequests
  {
    Limiter(windowSize, maxRequests, map[])
  }

  /**
   Scans a queue from index `from` towards the back while the timestamps are
   expired, and returns where the scan stops: every timestamp it passed is
   at or before `cutoff`, and the one it stops at, if any, is newer.
   */
  function ExpiredPrefixEnd(q: seq<real>, cutoff: real, from: nat): (k: nat)
    requires from <= |q|
    ensures from <= k <= |q|
    ensures forall i :: from <= i < k ==> q[i] <= cutoff
    ensures k < |q| ==> q[k] > cutoff
    decreases |q| - from
  {
    if from < |q| && q[from] <= cutoff then ExpiredPrefixEnd(q, cutoff, from + 1) else from
  }

  /**
   Pops expired timestamps from the front of a queue until the queue is empty
   or its oldest timestamp is newer than `cutoff`. What is left is a suffix of
   the queue; everything removed was expired; the new head, if any, is live.
   */
  function DropExpired(q: seq<real>, cutoff: real): (r: seq<real>)
    ensures |r| <= |q|
    ensures forall i :: 0 <= i < |q| - |r| ==> q[i] <= cutoff
    ensures r != [] ==> r[0] > cutoff
  {
    q[ExpiredPrefixEnd(q, cutoff, 0)..]
  }

  /** What cleanup leaves is a suffix of the original queue: it only removes from the front. */
  lemma DropExpiredIsSuffix(q: seq<real>, cutoff: real)
    ensures exists k :: 0 <= k <= |q| && DropExpired(q, cutoff) == q[k..]
  {
    var k := ExpiredPrefixEnd(q, cutoff, 0);
    assert DropExpired(q, cutoff) == q[k..];
  }

  /**
   The cut that `DropExpired` makes is the only one with an all-expired
   prefix and a live (or no) head, so those two facts determine its result.
   */
  lemma DropExpiredUnique(q: seq<real>, cutoff: real, k: nat)
    requires k <= |q|
    requires forall i :: 0 <= i < k ==> q[i] <= cutoff
    requires k < |q| ==> q[k] > cutoff
    ensures DropExpired(q, cutoff) == q[k..]
  {
  }

  /**
   The cleanup `while` loop, with each `popleft` counted by advancing `i`:
   it leaves the same queue as `DropExpired`.
   */
  method PopExpired(q: seq<real>, cutoff: real) returns (r: seq<real>)
    ensures r == DropExpired(q, cutoff)
  {
    var i := 0;
    while i < |q| && q[i] <= cutoff
      invariant i <= |q|
      invariant forall j :: 0 <= j < i ==> q[j] <= cutoff
    {
      i := i + 1;
    }
    r := q[i..];
    DropExpiredUnique(q, cutoff, i);
  }

  /** Stores `q` as `u`'s queue, deleting the entry instead when `q` is empty. */
  function SetQueue(m: map<string, seq<real>>, u: string, q: seq<real>): map<string, seq<real>>
  {
    if q == [] then m - {u} else m[u := q]
  }

  /**
   The lazy cleanup of one user's queue at time `now`: the queue loses its
   expired prefix and the user's entry is deleted once the queue is empty.
   An unknown user, and every other user, is left exactly as it was.
   */
  function CleanupWindow(l: Limiter, u: string, now: real): (l': Limiter)
    ensures l'.windowSize == l.windowSize && l'.maxRequests == l.maxRequests
    ensures u !in l.userRequests ==> l' == l
    ensures l'.userRequests.Keys <= l.userRequests.Keys
    ensures forall v :: v in l.userRequests && v != u ==>
              v in l'.userRequests && l'.userRequests[v] == l.userRequests[v]
    ensures u in l.userRequests ==>
              (u in l'.userRequests <==> DropExpired(l.userRequests[u], now - l.windowSize) != [])
    ensures u in l'.userRequests ==>
              l'.userRequests[u] == DropExpired(l.userRequests[u], now - l.windowSize)
    ensures u in l'.userRequests ==> l'.userRequests[u][0] > now - l.windowSize
    ensures RequestCount(l', u) <= RequestCount(l, u)
  {
    if u in l.userRequests then
      l.(userRequests := SetQueue(l.userRequests, u, DropExpired(l.userRequests[u], now - l.windowSize)))
    else
      l
  }

  /**
   The admission query: clean up `u`'s queue at `now`, then admit exactly
   when fewer than `maxRequests` timestamps remain. The query never records
   anything, so the count it inspects can only have shrunk.
   */
  function CanSendMessage(l: Limiter, u: string, now: real): (d: Decision)
    ensures d.limiter == CleanupWindow(l, u, now)
    ensures d.allowed <==> RequestCount(d.limiter, u) < l.maxRequests
    ensures RequestCount(d.limiter, u) <= RequestCount(l, u)
  {
    var l' := CleanupWindow(l, u, now);
    Decision(l', RequestCount(l', u) < l'.maxRequests)
  }

  /** A suffix of a sorted queue is sorted. */
  lemma SortedSuffix(q: seq<real>, k: nat)
    requires Sorted(q) && k <= |q|
    ensures Sorted(q[k..])
  {
  }

  /** Cleanup keeps every queue non-empty and sorted. */
  lemma CleanupPreservesValid(l: Limiter, u: string, now: real)
    requires Valid(l)
    ensures Valid(CleanupWindow(l, u, now))
  {
    if u in l.userRequests {
      var q := l.userRequests[u];
      var r := DropExpired(q, now - l.windowSize);
      SortedSuffix(q, |q| - |r|);
    }
  }

  /** Expired timestamps in front of the cut contribute nothing to the live part. */
  lemma {:induction false} LiveSkipsExpired(q: seq<real>, cutoff: real, k: nat)
    requires k <= |q|
    requires forall i :: 0 <= i < k ==> q[i] <= cutoff
    ensures Live(q, cutoff) == Live(q[k..], cutoff)
    decreases k
  {
    if k > 0 {
      LiveSkipsExpired(q[1..], cutoff, k - 1);
      assert q[1..][k - 1..] == q[k..];
    }
  }

  /** A queue whose every timestamp is newer than `cutoff` is entirely live. */
  lemma {:induction false} AllLive(q: seq<real>, cutoff: real)
    requires forall i :: 0 <= i < |q| ==> q[i] > cutoff
    ensures Live(q, cutoff) == q
    decreases |q|
  {
    if q != [] {
      AllLive(q[1..], cutoff);
    }
  }

  /**
   On a sorted queue, popping the expired prefix leaves exactly the live
   timestamps: once the head is live, so is everything behind it.
   */
  lemma DropExpiredSortedIsLive(q: seq<real>, cutoff: real)
    requires Sorted(q)
    ensures DropExpired(q, cutoff) == Live(q, cutoff)
  {
    var r := DropExpired(q, cutoff);
    var k := |q| - |r|;
    LiveSkipsExpired(q, cutoff, k);
    if r != [] {
      assert forall i :: 0 <= i < |r| ==> r[0] <= r[i];
    }
    AllLive(r, cutoff);
  }

  /**
   Without the ordering, cleanup still never loses a live timestamp: the
   live part of what is left is the live part of the whole queue.
   */
  lemma DropExpiredKeepsLive(q: seq<real>, cutoff: real)
    ensures Live(DropExpired(q, cutoff), cutoff) == Live(q, cutoff)
  {
    var r := DropExpired(q, cutoff);
    LiveSkipsExpired(q, cutoff, |q| - |r|);
  }

  /**
   Stale timestamps queued behind a live one survive cleanup: the scan stops
   at the first live timestamp, so an out-of-order queue keeps more than its
   live part.
   */
  lemma StaleBehindLiveSurvives()
    ensures DropExpired([5.0, 0.0], 1.0) == [5.0, 0.0]
    ensures Live([5.0, 0.0], 1.0) == [5.0]
  {
    assert ExpiredPrefixEnd([5.0, 0.0], 1.0, 0) == 0;
  }

  /**
   Cleanup at a later cutoff subsumes cleanup at an earlier one: however often
   lazy expiry has already run on a queue, the queue left at the later time
   is the same.
   */
  lemma DropExpiredLater(q: seq<real>, c1: real, c2: real)
    requires c1 <= c2
    ensures DropExpired(DropExpired(q, c1), c2) == DropExpired(q, c2)
  {
    var r1 := DropExpired(q, c1);
    var k1 := |q| - |r1|;
    var r2 := DropExpired(r1, c2);
    var k2 := |r1| - |r2|;
    assert r2 == q[k1 + k2..];
    DropExpiredUnique(q, c2, k1 + k2);
  }

  /** Running cleanup twice with the same `now` is the same as running it once. */
  lemma CleanupIdempotent(l: Limiter, u: string, now: real)
    ensures CleanupWindow(CleanupWindow(l, u, now), u, now) == CleanupWindow(l, u, now)
  {
    if u in l.userRequests {
      var q1 := DropExpired(l.userRequests[u], now - l.windowSize);
      if q1 != [] {
        DropExpiredUnique(q1, now - l.windowSize, 0);
        SetQueueTwice(l.userRequests, u, q1, q1);
      }
    }
  }

  /** A second store for the same user overrides the first. */
  lemma SetQueueTwice(m: map<string, seq<real>>, u: string, a: seq<real>, b: seq<real>)
    requires a != []
    ensures SetQueue(SetQueue(m, u, a), u, b) == SetQueue(m, u, b)
  {
    if b == [] {
      assert m[u := a] - {u} == m - {u};
    }
  }

  /** Repeating an admission query at the same time changes nothing further. */
  lemma CanSendMessageIdempotent(l: Limiter, u: string, now: real)
    ensures CanSendMessage(CanSendMessage(l, u, now).limiter, u, now) == CanSendMessage(l, u, now)
  {
    CleanupIdempotent(l, u, now);
  }

  /** In a well-formed limiter, every user's queue, present or not, is ordered. */
  lemma ValidQueueSorted(l: Limiter, u: string)
    requires Valid(l)
    ensures Sorted(Queue(l, u))
  {
  }

  /**
   When `u`'s queue is ordered (as in a well-formed limiter), `u` is admitted
   at `now` exactly when fewer than `maxRequests` of its timestamps are newer
   than `now - windowSize`.
   */
  lemma AdmissionCountsLive(l: Limiter, u: string, now: real)
    requires Sorted(Queue(l, u))
    ensures CanSendMessage(l, u, now).allowed <==> |Live(Queue(l, u), now - l.windowSize)| < l.maxRequests
  {
    var q := Queue(l, u);
    SortedLiveCount(q, now - l.windowSize);
    CleanupCount(l, u, now);
  }

  /** For a sorted queue, the count left by cleanup is the number of live timestamps. */
  lemma SortedLiveCount(q: seq<real>, cutoff: real)
    requires Sorted(q)
    ensures |DropExpired(q, cutoff)| == |Live(q, cutoff)|
  {
    DropExpiredSortedIsLive(q, cutoff);
  }

  /** After cleanup, the user's count is the length of the unexpired suffix of its queue. */
  lemma CleanupCount(l: Limiter, u: string, now: real)
    ensures RequestCount(CleanupWindow(l, u, now), u) == |DropExpired(Queue(l, u), now - l.windowSize)|
  {
    if u !in l.userRequests {
      assert DropExpired([], now - l.windowSize) == [];
    }
  }

  /**
   Window expiry for an ordered queue: after an admission query at `now`, a
   timestamp `t` stored for `u` is still stored exactly when
   `t > now - windowSize`.
   */
  lemma ExpiryBoundary(l: Limiter, u: string, now: real, t: real)
    requires u in l.userRequests && Sorted(l.userRequests[u])
    requires t in l.userRequests[u]
    ensures var l' := CanSendMessage(l, u, now).limiter;
            (u in l'.userRequests && t in l'.userRequests[u]) <==> t > now - l.windowSize
  {
    var q := l.userRequests[u];
    var r := DropExpired(q, now - l.windowSize);
    var i :| 0 <= i < |q| && q[i] == t;
    if t > now - l.windowSize {
      assert i >= |q| - |r|;
      assert r[i - (|q| - |r|)] == t;
    } else if r != [] {
      SortedSuffix(q, |q| - |r|);
      assert t !in r;
    }
  }

  /** Removing one user's entry takes exactly that user's timestamps away. */
  lemma {:induction false} TotalStoredRemove(m: map<string, seq<real>>, u: string)
    requires u in m
    ensures TotalStored(m) == |m[u]| + TotalStored(m - {u})
    decreases |m|
  {
    var k :| k in m && TotalStored(m) == |m[k]| + TotalStored(m - {k});
    if k != u {
      assert |m - {k}| < |m|;
      TotalStoredRemove(m - {k}, u);
      TotalStoredRemove(m - {u}, k);
      assert m - {k} - {u} == m - {u} - {k};
    }
  }

  /** Replacing one user's queue by a shorter one never increases the total. */
  lemma TotalStoredShrink(m: map<string, seq<real>>, u: string, q: seq<real>)
    requires u in m && |q| <= |m[u]|
    ensures TotalStored(m[u := q]) <= TotalStored(m)
  {
    TotalStoredRemove(m, u);
    TotalStoredRemove(m[u := q], u);
    assert m[u := q] - {u} == m - {u};
  }

  /** An admission query never increases the number of stored timestamps. */
  lemma CanSendMessageNeverGrows(l: Limiter, u: string, now: real)
    ensures TotalStored(CanSendMessage(l, u, now).limiter.userRequests) <= TotalStored(l.userRequests)
  {
    if u in l.userRequests {
      var q := DropExpired(l.userRequests[u], now - l.windowSize);
      if q == [] {
        TotalStoredRemove(l.userRequests, u);
      } else {
        TotalStoredShrink(l.userRequests, u, q);
      }
    }
  }

  /**
   A freshly built limiter has no queues, so a query leaves it exactly as it
   was; with nothing ever appended, every state it reaches admits everybody
   when `maxRequests >= 1`.
   */
  lemma InitQueryUnchanged(windowSize: real, maxRequests: int, u: string, now: real)
    ensures CanSendMessage(Init(windowSize, maxRequests), u, now).limiter == Init(windowSize, maxRequests)
  {
  }

  /**
   The default window of 10 and capacity of 1, with user "1" holding a
   request at time 0: a query at time 5 is refused, a query at time 11 is admitted.
   */
  lemma ScenarioOneRequestPerWindow()
    ensures var l := Init().(userRequests := map["1" := [0.0]]);
            !CanSendMessage(l, "1", 5.0).allowed && CanSendMessage(l, "1", 11.0).allowed
  {
  }
}
