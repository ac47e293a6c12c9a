/** The per-address rate limiter: fixed windows that open with the first request after the last one closed. */
module RateLimiting {

  datatype Address = Address(id: nat)

  datatype Config = Config(maxRequests: nat, windowSecs: nat)

  datatype Entry = Entry(count: nat, reset: nat)

  datatype Request = Request(ip: Address, now: nat)

  /** The table and, for reasoning only, the requests admitted so far. */
  datatype State = State(limits: map<Address, Entry>, admitted: seq<Request>)

  function EntryFor(c: Config, limits: map<Address, Entry>, q: Request): Entry {
    if q.ip in limits then limits[q.ip] else Entry(0, q.now + c.windowSecs)
  }

  predicate Allows(c: Config, e: Entry, now: nat) {
    now > e.reset || e.count < c.maxRequests
  }

  function Updated(c: Config, e: Entry, now: nat): Entry {
    if now > e.reset then Entry(1, now + c.windowSecs)
    else if e.count >= c.maxRequests then e
    else Entry(e.count + 1, e.reset)
  }

  function Step(c: Config, s: State, q: Request): State {
    var e := EntryFor(c, s.limits, q);
    State(s.limits[q.ip := Updated(c, e, q.now)], if Allows(c, e, q.now) then s.admitted + [q] else s.admitted)
  }

  function After(c: Config, requests: seq<Request>, n: nat): State
    requires n <= |requests|
  {
    if n == 0 then State(map[], []) else Step(c, After(c, requests, n - 1), requests[n - 1])
  }

  /** Requests from one address with a time in a closed interval. */
  function Count(log: seq<Request>, ip: Address, lo: int, hi: int): nat {
    if log == [] then 0
    else
      var q := log[|log| - 1];
      Count(log[..|log| - 1], ip, lo, hi) + if q.ip == ip && lo <= q.now <= hi then 1 else 0
  }

  lemma CountMore(log: seq<Request>, q: Request, ip: Address, lo: int, hi: int)
    ensures Count(log + [q], ip, lo, hi) == Count(log, ip, lo, hi) + if q.ip == ip && lo <= q.now <= hi then 1 else 0
  {
    assert (log + [q])[..|log|] == log;
  }

  lemma {:induction false} CountSplit(log: seq<Request>, ip: Address, lo: int, mid: int, hi: int)
    ensures Count(log, ip, lo, hi) <= Count(log, ip, lo, mid - 1) + Count(log, ip, mid, hi)
  {
    if log != [] {
      CountSplit(log[..|log| - 1], ip, lo, mid, hi);
    }
  }

  lemma {:induction false} CountNarrower(log: seq<Request>, ip: Address, lo: int, lo': int, hi: int, hi': int)
    requires lo' <= lo && hi <= hi'
    ensures Count(log, ip, lo, hi) <= Count(log, ip, lo', hi')
  {
    if log != [] {
      CountNarrower(log[..|log| - 1], ip, lo, lo', hi, hi');
    }
  }

  // ----- the invariant

  ghost predicate AtMostFrom(log: seq<Request>, ip: Address, lo: int, n: int) {
    forall hi :: Count(log, ip, lo, hi) <= n
  }

  /** Intervals that start at first or later and end at hi. */
  ghost predicate AtMostUntil(log: seq<Request>, ip: Address, first: int, hi: int, n: int) {
    forall lo :: lo >= first ==> Count(log, ip, lo, hi) <= n
  }

  /** What an open window knows about the admitted requests of its address. Its start is reset - windowSecs. */
  ghost predicate WindowKnows(c: Config, e: Entry, log: seq<Request>, ip: Address) {
    var start := e.reset - c.windowSecs;
    && 1 <= e.count <= c.maxRequests
    && start >= 0
    && AtMostFrom(log, ip, start, e.count)
    && AtMostFrom(log, ip, start + 1, e.count - 1)
    && AtMostFrom(log, ip, e.reset + 1, 0)
    && AtMostUntil(log, ip, start - c.windowSecs, start - 1, c.maxRequests - 1)
  }

  ghost predicate Unknown(log: seq<Request>, ip: Address) {
    forall lo, hi :: Count(log, ip, lo, hi) == 0
  }

  ghost predicate Bounded(c: Config, log: seq<Request>, ip: Address) {
    forall lo, hi :: hi <= lo + c.windowSecs ==> Count(log, ip, lo, hi) < 2 * c.maxRequests
  }

  ghost predicate Invariant(c: Config, s: State, clock: nat, ip: Address) {
    && (if ip in s.limits then
          WindowKnows(c, s.limits[ip], s.admitted, ip) && s.limits[ip].reset - c.windowSecs <= clock
        else Unknown(s.admitted, ip))
    && Bounded(c, s.admitted, ip)
  }

  /** A request that opens a window: the earlier ones that a shared interval can hold do not include the opening
      request of the window before. */
  lemma OpensWindow(c: Config, s: State, clock: nat, q: Request)
    requires Invariant(c, s, clock, q.ip) && c.maxRequests >= 1
    requires q.ip in s.limits ==> q.now > s.limits[q.ip].reset
    ensures WindowKnows(c, Entry(1, q.now + c.windowSecs), s.admitted + [q], q.ip)
  {
    var log, ip, start, eve := s.admitted, q.ip, q.now, q.now - 1;
    forall lo, hi | start <= lo
      ensures Count(log + [q], ip, lo, hi) <= if lo == start then 1 else 0
    {
      CountMore(log, q, ip, lo, hi);
      if ip in s.limits {
        CountNarrower(log, ip, lo, s.limits[ip].reset + 1, hi, hi);
      }
    }
    forall lo | lo >= start - c.windowSecs
      ensures Count(log + [q], ip, lo, eve) <= c.maxRequests - 1
    {
      CountMore(log, q, ip, lo, eve);
      if ip in s.limits {
        CountNarrower(log, ip, lo, s.limits[ip].reset - c.windowSecs + 1, eve, eve);
      }
    }
  }

  /** A request that joins the open window. */
  lemma JoinsWindow(c: Config, s: State, clock: nat, q: Request)
    requires Invariant(c, s, clock, q.ip) && clock <= q.now && q.ip in s.limits
    requires q.now <= s.limits[q.ip].reset && s.limits[q.ip].count < c.maxRequests
    ensures WindowKnows(c, Entry(s.limits[q.ip].count + 1, s.limits[q.ip].reset), s.admitted + [q], q.ip)
  {
    var e := s.limits[q.ip];
    forall lo, hi
      ensures Count(s.admitted + [q], q.ip, lo, hi) ==
        Count(s.admitted, q.ip, lo, hi) + if lo <= q.now <= hi then 1 else 0
    {
      CountMore(s.admitted, q, q.ip, lo, hi);
    }
  }

  /** One more admitted request keeps the bound: an interval that holds it reaches back into at most one earlier
      window, and not to that window's start. */
  lemma StaysBounded(c: Config, log: seq<Request>, q: Request, e: Entry)
    requires Bounded(c, log, q.ip) && WindowKnows(c, e, log + [q], q.ip)
    requires e.reset - c.windowSecs <= q.now
    ensures Bounded(c, log + [q], q.ip)
  {
    forall lo, hi | hi <= lo + c.windowSecs
      ensures Count(log + [q], q.ip, lo, hi) < 2 * c.maxRequests
    {
      if lo <= q.now <= hi {
        CountSplit(log + [q], q.ip, lo, e.reset - c.windowSecs, hi);
      } else {
        CountMore(log, q, q.ip, lo, hi);
      }
    }
  }

  lemma StepKeepsOwn(c: Config, s: State, clock: nat, q: Request)
    requires Invariant(c, s, clock, q.ip) && clock <= q.now && c.maxRequests >= 1
    ensures Invariant(c, Step(c, s, q), q.now, q.ip)
  {
    var e := EntryFor(c, s.limits, q);
    if Allows(c, e, q.now) {
      if q.ip !in s.limits || q.now > e.reset {
        OpensWindow(c, s, clock, q);
      } else {
        JoinsWindow(c, s, clock, q);
      }
      StaysBounded(c, s.admitted, q, Updated(c, e, q.now));
    }
  }

  lemma StepKeepsOther(c: Config, s: State, clock: nat, q: Request, ip: Address)
    requires Invariant(c, s, clock, ip) && clock <= q.now && ip != q.ip
    ensures Invariant(c, Step(c, s, q), q.now, ip)
  {
    forall lo, hi
      ensures Count(s.admitted + [q], ip, lo, hi) == Count(s.admitted, ip, lo, hi)
    {
      CountMore(s.admitted, q, ip, lo, hi);
    }
  }

  ghost predicate Clocked(requests: seq<Request>) {
    forall j, k :: 0 <= j < k < |requests| ==> requests[j].now <= requests[k].now
  }

  function ClockAt(requests: seq<Request>, n: nat): nat
    requires n <= |requests|
  {
    if n == 0 then 0 else requests[n - 1].now
  }

  lemma {:induction false} RunKeepsInvariant(c: Config, requests: seq<Request>, n: nat, ip: Address)
    requires Clocked(requests) && n <= |requests| && c.maxRequests >= 1
    ensures Invariant(c, After(c, requests, n), ClockAt(requests, n), ip)
  {
    if n > 0 {
      RunKeepsInvariant(c, requests, n - 1, ip);
      var s, q := After(c, requests, n - 1), requests[n - 1];
      if ip == q.ip {
        StepKeepsOwn(c, s, ClockAt(requests, n - 1), q);
      } else {
        StepKeepsOther(c, s, ClockAt(requests, n - 1), q, ip);
      }
    }
  }

  /** Over any run with a clock that does not go back, a closed interval no longer than the window holds fewer than
      twice max_requests admitted requests of one address. */
  lemma AdmitsBelowTwice(c: Config, requests: seq<Request>, n: nat, ip: Address,
                         lo: int, hi: int)
    requires Clocked(requests) && n <= |requests| && c.maxRequests >= 1 && hi <= lo + c.windowSecs
    ensures Count(After(c, requests, n).admitted, ip, lo, hi) <= 2 * c.maxRequests - 1
  {
    RunKeepsInvariant(c, requests, n, ip);
  }

  // ----- nothing is refused too early

  /** The counted requests were really admitted, between the window's start and now. */
  ghost predicate FilledEntry(c: Config, e: Entry, log: seq<Request>, ip: Address, clock: nat) {
    var start := e.reset - c.windowSecs;
    start <= clock && e.count <= Count(log, ip, start, clock)
  }

  ghost predicate Filled(c: Config, s: State, clock: nat, ip: Address) {
    ip in s.limits ==> FilledEntry(c, s.limits[ip], s.admitted, ip, clock)
  }

  lemma FilledStays(c: Config, e: Entry, log: seq<Request>, ip: Address, clock: nat, now: nat)
    requires FilledEntry(c, e, log, ip, clock) && clock <= now
    ensures FilledEntry(c, e, log, ip, now)
  {
    CountNarrower(log, ip, e.reset - c.windowSecs, e.reset - c.windowSecs, clock, now);
  }

  lemma FilledByOther(c: Config, e: Entry, log: seq<Request>, q: Request, ip: Address)
    requires FilledEntry(c, e, log, ip, q.now) && q.ip != ip
    ensures FilledEntry(c, e, log + [q], ip, q.now)
  {
    CountMore(log, q, ip, e.reset - c.windowSecs, q.now);
  }

  lemma FilledByJoining(c: Config, e: Entry, log: seq<Request>, q: Request)
    requires FilledEntry(c, e, log, q.ip, q.now)
    ensures FilledEntry(c, Entry(e.count + 1, e.reset), log + [q], q.ip, q.now)
  {
    CountMore(log, q, q.ip, e.reset - c.windowSecs, q.now);
  }

  lemma FilledByOpening(c: Config, log: seq<Request>, q: Request)
    ensures FilledEntry(c, Entry(0, q.now + c.windowSecs), log, q.ip, q.now)
    ensures FilledEntry(c, Entry(1, q.now + c.windowSecs), log + [q], q.ip, q.now)
  {
    CountMore(log, q, q.ip, q.now, q.now);
  }

  lemma StepKeepsFilled(c: Config, s: State, clock: nat, q: Request, ip: Address)
    requires Filled(c, s, clock, ip) && clock <= q.now
    ensures Filled(c, Step(c, s, q), q.now, ip)
  {
    if ip in s.limits {
      FilledStays(c, s.limits[ip], s.admitted, ip, clock, q.now);
      if q.ip == ip {
        FilledByJoining(c, s.limits[ip], s.admitted, q);
      } else {
        FilledByOther(c, s.limits[ip], s.admitted, q, ip);
      }
    }
    FilledByOpening(c, s.admitted, q);
  }

  lemma {:induction false} RunKeepsFilled(c: Config, requests: seq<Request>, n: nat, ip: Address)
    requires Clocked(requests) && n <= |requests|
    ensures Filled(c, After(c, requests, n), ClockAt(requests, n), ip)
  {
    if n > 0 {
      RunKeepsFilled(c, requests, n - 1, ip);
      StepKeepsFilled(c, After(c, requests, n - 1), ClockAt(requests, n - 1), requests[n - 1], ip);
    }
  }

  ghost predicate Refuses(c: Config, s: State, q: Request) {
    !Allows(c, EntryFor(c, s.limits, q), q.now)
  }

  /** The last window_secs before the request hold max_requests admitted requests of its address. */
  ghost predicate Full(c: Config, s: State, q: Request) {
    Count(s.admitted, q.ip, q.now - c.windowSecs, q.now) >= c.maxRequests
  }

  lemma ClockNotAhead(requests: seq<Request>, n: nat)
    requires Clocked(requests) && n < |requests|
    ensures ClockAt(requests, n) <= requests[n].now
  {
  }

  lemma FullWhenRefused(c: Config, s: State, clock: nat, q: Request)
    requires Filled(c, s, clock, q.ip) && clock <= q.now && Refuses(c, s, q)
    ensures Full(c, s, q)
  {
    if q.ip in s.limits {
      CountNarrower(s.admitted, q.ip, s.limits[q.ip].reset - c.windowSecs, q.now - c.windowSecs, clock, q.now);
    }
  }

  /** A request is refused only if max_requests of its address were admitted within the last window_secs. */
  lemma RefusedOnlyWhenFull(c: Config, requests: seq<Request>, n: nat)
    requires Clocked(requests) && n < |requests| && Refuses(c, After(c, requests, n), requests[n])
    ensures Full(c, After(c, requests, n), requests[n])
  {
    RunKeepsFilled(c, requests, n, requests[n].ip);
    ClockNotAhead(requests, n);
    FullWhenRefused(c, After(c, requests, n), ClockAt(requests, n), requests[n]);
  }

  // ----- counting windows

  /** A window that was open at step m holds at most max_requests admitted requests, at every later step; any later
      window starts after it ended. */
  lemma {:induction false} WindowHoldsAtMost(c: Config, requests: seq<Request>, m: nat, n: nat, ip: Address, r: nat)
    requires Clocked(requests) && m <= n <= |requests| && c.maxRequests >= 1
    requires ip in After(c, requests, m).limits && After(c, requests, m).limits[ip].reset == r
    ensures WasOpen(c, After(c, requests, n), ip, r)
  {
    if m == n {
      RunKeepsInvariant(c, requests, n, ip);
      OpenWindowHolds(c, After(c, requests, n), ClockAt(requests, n), ip);
    } else {
      WindowHoldsAtMost(c, requests, m, n - 1, ip, r);
      RunKeepsInvariant(c, requests, n - 1, ip);
      WindowStep(c, After(c, requests, n - 1), ClockAt(requests, n - 1), requests[n - 1], ip, r);
    }
  }

  /** The window that ends at r was open once: it is the current one or ended before that one started, and it holds
      at most max_requests. */
  ghost predicate WasOpen(c: Config, s: State, ip: Address, r: nat) {
    && ip in s.limits
    && (s.limits[ip].reset == r || s.limits[ip].reset - c.windowSecs > r)
    && Count(s.admitted, ip, r - c.windowSecs, r) <= c.maxRequests
  }

  lemma OpenWindowHolds(c: Config, s: State, clock: nat, ip: Address)
    requires Invariant(c, s, clock, ip) && ip in s.limits
    ensures WasOpen(c, s, ip, s.limits[ip].reset)
  {
  }

  lemma WindowStep(c: Config, s: State, clock: nat, q: Request, ip: Address, r: nat)
    requires Invariant(c, s, clock, ip) && clock <= q.now && c.maxRequests >= 1 && WasOpen(c, s, ip, r)
    ensures WasOpen(c, Step(c, s, q), ip, r)
  {
    if q.ip != ip || q.now > r {
      LateStep(c, s, q, ip, r);
    } else {
      StepKeepsOwn(c, s, clock, q);
      SameWindow(c, s, clock, q);
      OpenWindowHolds(c, Step(c, s, q), q.now, ip);
    }
  }

  /** A request of another address, or after the window, does not count in it. */
  lemma LateStep(c: Config, s: State, q: Request, ip: Address, r: nat)
    requires WasOpen(c, s, ip, r) && (q.ip != ip || q.now > r)
    ensures WasOpen(c, Step(c, s, q), ip, r)
  {
    CountMore(s.admitted, q, ip, r - c.windowSecs, r);
  }

  lemma SameWindow(c: Config, s: State, clock: nat, q: Request)
    requires Invariant(c, s, clock, q.ip) && clock <= q.now && q.ip in s.limits && q.now <= s.limits[q.ip].reset
    ensures q.ip in Step(c, s, q).limits && Step(c, s, q).limits[q.ip].reset == s.limits[q.ip].reset
  {
  }

  // ----- addresses do not affect each other

  /** The first n requests without those of other addresses. */
  function Own(requests: seq<Request>, n: nat, ip: Address): seq<Request>
    requires n <= |requests|
  {
    if n == 0 then []
    else Own(requests, n - 1, ip) + if requests[n - 1].ip == ip then [requests[n - 1]] else []
  }

  lemma {:induction false} AfterPrefix(c: Config, requests: seq<Request>, q: Request, n: nat)
    requires n <= |requests|
    ensures After(c, requests + [q], n) == After(c, requests, n)
  {
    if n > 0 {
      AfterPrefix(c, requests, q, n - 1);
    }
  }

  lemma {:induction false} OwnPrefix(requests: seq<Request>, q: Request, n: nat, ip: Address)
    requires n <= |requests|
    ensures Own(requests + [q], n, ip) == Own(requests, n, ip)
  {
    if n > 0 {
      OwnPrefix(requests, q, n - 1, ip);
    }
  }

  function Final(c: Config, requests: seq<Request>): State {
    After(c, requests, |requests|)
  }

  lemma FinalMore(c: Config, requests: seq<Request>, q: Request)
    ensures Final(c, requests + [q]) == Step(c, Final(c, requests), q)
  {
    AfterPrefix(c, requests, q, |requests|);
  }

  ghost predicate SameFor(s: State, t: State, ip: Address) {
    && (ip in s.limits <==> ip in t.limits)
    && (ip in s.limits ==> s.limits[ip] == t.limits[ip])
    && Own(s.admitted, |s.admitted|, ip) == Own(t.admitted, |t.admitted|, ip)
  }

  lemma StepSameFor(c: Config, s: State, t: State, q: Request, ip: Address)
    requires SameFor(s, t, ip)
    ensures q.ip == ip ==> SameFor(Step(c, s, q), Step(c, t, q), ip)
    ensures q.ip != ip ==> SameFor(Step(c, s, q), t, ip)
  {
    OwnPrefix(s.admitted, q, |s.admitted|, ip);
    OwnPrefix(t.admitted, q, |t.admitted|, ip);
  }

  /** The window and the admitted requests of an address are those of a run of that address's requests alone. */
  lemma {:induction false} AddressesIndependent(c: Config, requests: seq<Request>, n: nat, ip: Address)
    requires n <= |requests|
    ensures SameFor(After(c, requests, n), Final(c, Own(requests, n, ip)), ip)
  {
    if n > 0 {
      AddressesIndependent(c, requests, n - 1, ip);
      StepSameFor(c, After(c, requests, n - 1), Final(c, Own(requests, n - 1, ip)), requests[n - 1], ip);
      FinalMore(c, Own(requests, n - 1, ip), requests[n - 1]);
      assert Own(requests, n - 1, ip) + [] == Own(requests, n - 1, ip);
    }
  }

  // ----- the bound is sharp, and needs a positive limit

  ghost predicate NeverTwice(c: Config) {
    forall requests: seq<Request>, ip: Address, lo: int, hi: int :: Clocked(requests) && hi <= lo + c.windowSecs ==>
      Count(Final(c, requests).admitted, ip, lo, hi) <= 2 * c.maxRequests
  }

  /** With a limit of zero, the second window still lets its first request through. */
  lemma ZeroLimitAdmits(window: nat, ip: Address)
    ensures var q := Request(ip, window + 1);
      After(Config(0, window), [Request(ip, 0), q], 2).admitted == [q]
  {
    var c, requests := Config(0, window), [Request(ip, 0), Request(ip, window + 1)];
    assert After(c, requests, 0) == State(map[], []);
    assert After(c, requests, 1) == State(map[ip := Entry(0, window)], []);
  }

  /** The documented bound holds of a limiter exactly if its limit is positive. */
  lemma NeverTwiceIff(c: Config)
    ensures NeverTwice(c) <==> c.maxRequests >= 1
  {
    if c.maxRequests >= 1 {
      forall requests: seq<Request>, ip: Address, lo: int, hi: int | Clocked(requests) && hi <= lo + c.windowSecs
        ensures Count(Final(c, requests).admitted, ip, lo, hi) <= 2 * c.maxRequests
      {
        AdmitsBelowTwice(c, requests, |requests|, ip, lo, hi);
      }
    } else {
      var ip := Address(0);
      var q := Request(ip, c.windowSecs + 1);
      var requests := [Request(ip, 0), q];
      ZeroLimitAdmits(c.windowSecs, ip);
      assert Final(c, requests).admitted == [] + [q];
      CountMore([], q, ip, q.now, q.now);
      assert Clocked(requests);
    }
  }

  /** One request at 0, then the rest of that window at its last second, then a whole window one second later. */
  function BurstTime(c: Config, k: nat): nat {
    if k == 0 then 0 else if k < c.maxRequests then c.windowSecs else c.windowSecs + 1
  }

  ghost predicate IsBurst(c: Config, ip: Address, requests: seq<Request>) {
    && |requests| == 2 * c.maxRequests
    && forall k :: 0 <= k < |requests| ==> requests[k] == Request(ip, BurstTime(c, k))
  }

  ghost predicate InBurst(c: Config, ip: Address, s: State, n: nat) {
    if n == 0 then s == State(map[], [])
    else
      && ip in s.limits
      && s.limits[ip] == (if n <= c.maxRequests then Entry(n, c.windowSecs)
                          else Entry(n - c.maxRequests, 2 * c.windowSecs + 1))
      && Count(s.admitted, ip, 1, 1 + c.windowSecs) == n - 1
  }

  lemma BurstStep(c: Config, ip: Address, s: State, n: nat)
    requires c.windowSecs >= 1 && n < 2 * c.maxRequests && InBurst(c, ip, s, n)
    ensures InBurst(c, ip, Step(c, s, Request(ip, BurstTime(c, n))), n + 1)
  {
    var q := Request(ip, BurstTime(c, n));
    CountMore(s.admitted, q, ip, 1, 1 + c.windowSecs);
    assert Allows(c, EntryFor(c, s.limits, q), q.now);
  }

  lemma {:induction false} BurstAdmitted(c: Config, ip: Address, requests: seq<Request>, n: nat)
    requires c.windowSecs >= 1 && IsBurst(c, ip, requests) && n <= |requests|
    ensures InBurst(c, ip, After(c, requests, n), n)
  {
    if n > 0 {
      BurstAdmitted(c, ip, requests, n - 1);
      BurstStep(c, ip, After(c, requests, n - 1), n - 1);
    }
  }

  /** So 2 * max_requests - 1 requests can fall into one interval: the bound cannot be lowered. */
  lemma BoundIsSharp(c: Config, ip: Address) returns (requests: seq<Request>)
    requires c.maxRequests >= 1 && c.windowSecs >= 1
    ensures Clocked(requests)
    ensures Count(Final(c, requests).admitted, ip, 1, 1 + c.windowSecs) == 2 * c.maxRequests - 1
  {
    requests := seq(2 * c.maxRequests, k requires k >= 0 => Request(ip, BurstTime(c, k)));
    BurstAdmitted(c, ip, requests, |requests|);
  }

  // ----- the limiter

  class RateLimiter {
    var limits: map<Address, Entry>
    const c: Config
    ghost var requests: seq<Request>
    ghost var admitted: seq<Request>

    /** The table is what the requests made so far left, and admitted lists those among them that were let through. */
    ghost predicate Valid()
      reads this
    {
      State(limits, admitted) == Final(c, requests)
    }

    constructor (maxRequests: nat, windowSecs: nat)
      ensures Valid() && c == Config(maxRequests, windowSecs) && requests == []
    {
      limits := map[];
      c := Config(maxRequests, windowSecs);
      requests, admitted := [], [];
    }

    /** Checks and counts one request; now is the clock reading. */
    method Check(ip: Address, now: nat) returns (ok: bool)
      requires Valid()
      modifies this
      ensures Valid() && requests == old(requests) + [Request(ip, now)]
      ensures ok == Allows(c, EntryFor(c, old(limits), Request(ip, now)), now)
      ensures admitted == if ok then old(admitted) + [Request(ip, now)] else old(admitted)
    {
      ghost var q := Request(ip, now);
      FinalMore(c, requests, q);
      if ip !in limits {
        limits := limits[ip := Entry(0, now + c.windowSecs)];
      }
      var e := limits[ip];
      if now > e.reset {
        limits := limits[ip := Entry(1, now + c.windowSecs)];
        ok := true;
      } else if e.count >= c.maxRequests {
        ok := false;
      } else {
        limits := limits[ip := Entry(e.count + 1, e.reset)];
        ok := true;
      }
      requests := requests + [q];
      admitted := if ok then admitted + [q] else admitted;
    }
  }
}
