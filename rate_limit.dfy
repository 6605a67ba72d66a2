/**
 * `RateLimitMiddleware` (middleware/rate_limit.py): a sliding-window limiter
 * keeping, per client IP, the times of its accepted requests. Every request
 * first drops all timestamps older than the window (for every IP), then is
 * rejected with 429 when the IP already holds `maxRequests` timestamps, and is
 * otherwise recorded.
 *
 * Clock readings are whole numbers passed in as `now`; the downstream handler
 * (`call_next`) is not part of this model.
 */
module RateLimit {
  import opened Common

  /** The per-IP timestamp lists. */
  type Log = map<string, seq<int>>

  /** The timestamps still inside the window at `now`, in order: those with `now - t < window`. */
  function Recent(ts: seq<int>, now: int, window: int): (r: seq<int>)
    ensures |r| <= |ts|
    ensures forall t :: t in r ==> t in ts && now - t < window
    ensures forall t :: t in ts && now - t < window ==> t in r
    decreases |ts|
  {
    if ts == [] then []
    else (if now - ts[0] < window then [ts[0]] else []) + Recent(ts[1..], now, window)
  }

  lemma {:induction false} RecentAppend(a: seq<int>, b: seq<int>, now: int, window: int)
    ensures Recent(a + b, now, window) == Recent(a, now, window) + Recent(b, now, window)
    decreases |a|
  {
    if a != [] {
      var head := if now - a[0] < window then [a[0]] else [];
      assert (a + b)[0] == a[0];
      assert (a + b)[1..] == a[1..] + b;
      RecentAppend(a[1..], b, now, window);
      calc {
        Recent(a + b, now, window);
        head + Recent(a[1..] + b, now, window);
        head + (Recent(a[1..], now, window) + Recent(b, now, window));
        (head + Recent(a[1..], now, window)) + Recent(b, now, window);
        { assert Recent(a, now, window) == head + Recent(a[1..], now, window); }
        Recent(a, now, window) + Recent(b, now, window);
      }
    } else {
      assert a + b == b;
    }
  }

  /** Filtering at `now` and then at a later time is filtering at the later time. */
  lemma {:induction false} RecentOfRecent(ts: seq<int>, now: int, later: int, window: int)
    requires now <= later
    ensures Recent(Recent(ts, now, window), later, window) == Recent(ts, later, window)
    decreases |ts|
  {
    if ts != [] {
      RecentOfRecent(ts[1..], now, later, window);
      var head := if now - ts[0] < window then [ts[0]] else [];
      RecentAppend(head, Recent(ts[1..], now, window), later, window);
    }
  }

  /** Later in time, the window never holds more timestamps. */
  lemma RecentShrinks(ts: seq<int>, now: int, later: int, window: int)
    requires now <= later
    ensures |Recent(ts, later, window)| <= |Recent(ts, now, window)|
  {
    RecentOfRecent(ts, now, later, window);
  }

  /** The list kept for `ip`, empty when it is not tracked. */
  function Get(m: Log, ip: string): seq<int> {
    if ip in m then m[ip] else []
  }

  /**
   * `_cleanup_old_requests`: every list filtered to the window, and IPs left
   * with no timestamp removed.
   */
  function Cleaned(m: Log, now: int, window: int): (r: Log)
    ensures forall ip :: ip in r ==> r[ip] != [] && forall t :: t in r[ip] ==> now - t < window
    ensures forall ip :: Get(r, ip) == Recent(Get(m, ip), now, window)
  {
    map ip | ip in m && Recent(m[ip], now, window) != [] :: Recent(m[ip], now, window)
  }

  /** Midway through a cleanup: the IPs in `pending` are untouched, the others cleaned. */
  function CleanedExcept(m: Log, pending: set<string>, now: int, window: int): Log {
    map ip | ip in m && (ip in pending || Recent(m[ip], now, window) != []) ::
      if ip in pending then m[ip] else Recent(m[ip], now, window)
  }

  /** Cleaning one more pending IP. */
  lemma CleanStep(m: Log, pending: set<string>, ip: string, now: int, window: int)
    requires ip in pending && pending <= m.Keys
    ensures var r := CleanedExcept(m, pending, now, window);
            var kept := Recent(r[ip], now, window);
            CleanedExcept(m, pending - {ip}, now, window) == if kept == [] then r[ip := kept] - {ip} else r[ip := kept]
  {
  }

  /** `_check_rate_limit`: an untracked IP, or one with fewer than `maxRequests` timestamps, may proceed. */
  predicate Allows(m: Log, ip: string, maxRequests: int) {
    ip !in m || |m[ip]| < maxRequests
  }

  /** Python's `min` of a non-empty list. */
  function Minimum(ts: seq<int>): (r: int)
    requires ts != []
    ensures r in ts && forall t :: t in ts ==> r <= t
    decreases |ts|
  {
    if |ts| == 1 then ts[0]
    else
      var rest := Minimum(ts[1..]);
      assert forall t :: t in ts[1..] ==> t in ts;
      assert forall t :: t in ts ==> t == ts[0] || t in ts[1..];
      if ts[0] <= rest then ts[0] else rest
  }

  /**
   * `_get_retry_after` on a tracked IP: the time left until its oldest timestamp
   * leaves the window. When every timestamp lies in the window and not in the
   * future, that is between 1 and `window`.
   */
  function RetryAfter(ts: seq<int>, now: int, window: int): (r: int)
    requires ts != []
    ensures (forall t :: t in ts ==> t <= now && now - t < window) ==> 0 < r <= window
  {
    window - (now - Minimum(ts))
  }

  /**
   * One request from `ip` at `now` against the lists `m`: the new lists and
   * whether it was accepted. The request is accepted exactly when the IP holds
   * fewer than `maxRequests` timestamps inside the window (or none); then its
   * list is its in-window timestamps plus `now`, otherwise just its in-window
   * timestamps. Every other IP keeps only its in-window timestamps.
   */
  function Step(m: Log, ip: string, now: int, maxRequests: int, window: int): (r: (Log, bool))
    ensures r.1 <==> Recent(Get(m, ip), now, window) == [] || |Recent(Get(m, ip), now, window)| < maxRequests
    ensures Get(r.0, ip) == Recent(Get(m, ip), now, window) + (if r.1 then [now] else [])
    ensures forall other :: other != ip ==> Get(r.0, other) == Recent(Get(m, other), now, window)
    ensures forall other :: other in r.0 ==> r.0[other] != []
  {
    var cleaned := Cleaned(m, now, window);
    if !Allows(cleaned, ip, maxRequests) then (cleaned, false)
    else (cleaned[ip := Get(cleaned, ip) + [now]], true)
  }

  /** What the middleware answers: the request goes on, or a 429 with a `Retry-After` value. */
  datatype Decision = Accepted | TooManyRequests(retryAfter: int)

  class RateLimitMiddleware {
    const maxRequests: int
    const timeWindow: int
    /** The timestamps of each IP's accepted requests. */
    var requests: Log

    /**
     * No IP maps to an empty list, and none holds more than `maxRequests`
     * timestamps (one, when `maxRequests` is below one).
     */
    ghost predicate Valid()
      reads this
    {
      forall ip :: ip in requests ==> requests[ip] != [] && |requests[ip]| <= Max(maxRequests, 1)
    }

    /** A limiter with no request recorded (5 requests per 60 seconds by default). */
    constructor (maxRequests: int := 5, timeWindow: int := 60)
      ensures Valid()
      ensures this.maxRequests == maxRequests && this.timeWindow == timeWindow && requests == map[]
    {
      this.maxRequests := maxRequests;
      this.timeWindow := timeWindow;
      requests := map[];
    }

    /**
     * `dispatch`: cleans every list, then answers 429 with the retry delay when
     * the IP is at its limit (recording nothing) and otherwise records `now` for
     * the IP and lets the request through.
     */
    method Dispatch(ip: string, now: int) returns (d: Decision)
      requires Valid()
      modifies this
      ensures Valid()
      ensures (requests, d.Accepted?) == Step(old(requests), ip, now, maxRequests, timeWindow)
      ensures d.TooManyRequests? ==>
                var cleaned := Cleaned(old(requests), now, timeWindow);
                ip in cleaned && d.retryAfter == RetryAfter(cleaned[ip], now, timeWindow)
    {
      CleanupOldRequests(now);
      if !CheckRateLimit(ip) {
        var retryAfter := GetRetryAfter(ip, now);
        return TooManyRequests(retryAfter);
      }
      AddRequest(ip, now);
      d := Accepted;
    }

    /** `_cleanup_old_requests`, visiting the IPs in any order. */
    method CleanupOldRequests(now: int)
      modifies this
      ensures requests == Cleaned(old(requests), now, timeWindow)
    {
      ghost var before := requests;
      var pending := requests.Keys;
      while pending != {}
        invariant pending <= before.Keys
        invariant requests == CleanedExcept(before, pending, now, timeWindow)
        decreases pending
      {
        var ip :| ip in pending;
        CleanStep(before, pending, ip, now, timeWindow);
        var kept := Recent(requests[ip], now, timeWindow);
        requests := requests[ip := kept];
        if kept == [] {
          requests := requests - {ip};
        }
        pending := pending - {ip};
      }
      assert requests == Cleaned(before, now, timeWindow);
    }

    /** `_check_rate_limit`. */
    function CheckRateLimit(ip: string): (allowed: bool)
      reads this
      ensures allowed <==> ip !in requests || |requests[ip]| < maxRequests
    {
      Allows(requests, ip, maxRequests)
    }

    /** `_add_request`: `now` appended to the IP's list, which is created when absent. */
    method AddRequest(ip: string, now: int)
      modifies this
      ensures requests == old(requests)[ip := Get(old(requests), ip) + [now]]
    {
      if ip !in requests {
        requests := requests[ip := []];
      }
      requests := requests[ip := requests[ip] + [now]];
    }

    /** `_get_retry_after`: 0 for an untracked IP, else the time until its oldest timestamp expires. */
    function GetRetryAfter(ip: string, now: int): (r: int)
      reads this
      requires ip in requests ==> requests[ip] != []
      ensures ip !in requests ==> r == 0
      ensures ip in requests && (forall t :: t in requests[ip] ==> t <= now && now - t < timeWindow) ==>
                0 < r <= timeWindow
    {
      if ip !in requests then 0 else RetryAfter(requests[ip], now, timeWindow)
    }
  }

  /** With the defaults (5 requests per 60 seconds), five requests in a row pass and the sixth gets a 429. */
  method FiveThenReject() returns (decisions: seq<Decision>)
    ensures |decisions| == 6
    ensures forall k :: 0 <= k < 5 ==> decisions[k] == Accepted
    ensures decisions[5] == TooManyRequests(55)
  {
    var limiter := new RateLimitMiddleware();
    decisions := [];
    var t := 0;
    while t < 5
      invariant 0 <= t <= 5 && |decisions| == t
      invariant limiter.Valid() && limiter.maxRequests == 5 && limiter.timeWindow == 60
      invariant limiter.requests == map["client" := SeqUpTo(t)] - (if t == 0 then {"client"} else {})
      invariant forall k :: 0 <= k < t ==> decisions[k] == Accepted
    {
      AcceptsBelowLimit(limiter.requests, t);
      var d := limiter.Dispatch("client", t);
      decisions := decisions + [d];
      t := t + 1;
    }
    RejectsAtLimit(limiter.requests);
    var d := limiter.Dispatch("client", 5);
    decisions := decisions + [d];
  }

  lemma AcceptsBelowLimit(m: Log, t: nat)
    requires t < 5
    requires m == map["client" := SeqUpTo(t)] - (if t == 0 then {"client"} else {})
    ensures Step(m, "client", t, 5, 60) == (map["client" := SeqUpTo(t + 1)], true)
  {
    RecentWithinWindow(SeqUpTo(t), t);
    assert Get(m, "client") == SeqUpTo(t);
    var (m', ok) := Step(m, "client", t, 5, 60);
    assert ok;
    assert SeqUpTo(t) + [t] == SeqUpTo(t + 1);
    assert Get(m', "client") == SeqUpTo(t + 1);
    assert m' == map["client" := SeqUpTo(t + 1)];
  }

  lemma RejectsAtLimit(m: Log)
    requires m == map["client" := SeqUpTo(5)] - {}
    ensures Step(m, "client", 5, 5, 60).1 == false
    ensures var cleaned := Cleaned(m, 5, 60);
            "client" in cleaned && RetryAfter(cleaned["client"], 5, 60) == 55
  {
    RecentWithinWindow(SeqUpTo(5), 5);
    assert Get(m, "client") == SeqUpTo(5);
    var cleaned := Cleaned(m, 5, 60);
    assert Get(cleaned, "client") == SeqUpTo(5);
    assert 0 in SeqUpTo(5);
  }

  /** The timestamps 0, 1, ..., n - 1. */
  function SeqUpTo(n: nat): (r: seq<int>)
    ensures |r| == n && forall k :: 0 <= k < n ==> r[k] == k
  {
    if n == 0 then [] else SeqUpTo(n - 1) + [n - 1]
  }

  lemma RecentWithinWindow(ts: seq<int>, now: int)
    requires now < 60
    requires forall k :: 0 <= k < |ts| ==> 0 <= ts[k] <= now
    ensures Recent(ts, now, 60) == ts
  {
    if ts != [] {
      RecentWithinWindow(ts[1..], now);
    }
  }

  // ---------------------------------------------------------------------------
  // The sliding-window guarantee over a sequence of requests
  // ---------------------------------------------------------------------------

  datatype Request = Request(ip: string, time: int)

  /** Running the requests in order from empty lists: the final lists and the accepted requests. */
  function Run(reqs: seq<Request>, maxRequests: int, window: int): (Log, seq<Request>)
    decreases |reqs|
  {
    if reqs == [] then (map[], [])
    else
      var n := |reqs|;
      var (m, accepted) := Run(reqs[..n - 1], maxRequests, window);
      var (m', ok) := Step(m, reqs[n - 1].ip, reqs[n - 1].time, maxRequests, window);
      (m', accepted + if ok then [reqs[n - 1]] else [])
  }

  /** The times of the requests from `ip`, in order. */
  function TimesOf(reqs: seq<Request>, ip: string): seq<int>
    decreases |reqs|
  {
    if reqs == [] then []
    else
      var n := |reqs|;
      TimesOf(reqs[..n - 1], ip) + if reqs[n - 1].ip == ip then [reqs[n - 1].time] else []
  }

  lemma TimesOfAppend(reqs: seq<Request>, r: Request, ip: string)
    ensures TimesOf(reqs + [r], ip) == TimesOf(reqs, ip) + if r.ip == ip then [r.time] else []
  {
    assert (reqs + [r])[..|reqs|] == reqs;
  }

  lemma AcceptedTimes(accepted: seq<Request>, r: Request, ok: bool, ip: string)
    ensures TimesOf(accepted + if ok then [r] else [], ip) == TimesOf(accepted, ip) + if ok && ip == r.ip then [r.time] else []
  {
    if ok {
      TimesOfAppend(accepted, r, ip);
    } else {
      assert accepted + [] == accepted;
    }
  }

  /** From `last` on, every IP's list holds, within the window, exactly its accepted requests' times. */
  ghost predicate Agrees(m: Log, accepted: seq<Request>, last: int, window: int) {
    forall ip, later {:trigger Recent(Get(m, ip), later, window)} ::
      later >= last ==> Recent(Get(m, ip), later, window) == Recent(TimesOf(accepted, ip), later, window)
  }

  /** At time `last`, no IP has more than `bound` accepted requests within the window. */
  ghost predicate WithinLimit(accepted: seq<Request>, last: int, window: int, bound: int) {
    forall ip :: |Recent(TimesOf(accepted, ip), last, window)| <= bound
  }

  predicate Chronological(reqs: seq<Request>) {
    forall i, j :: 0 <= i < j < |reqs| ==> reqs[i].time <= reqs[j].time
  }

  /** One step keeps the lists in agreement with the accepted requests, and keeps each IP within the limit. */
  lemma StepKeepsLimit(m: Log, accepted: seq<Request>, last: int, r: Request, maxRequests: int, window: int)
    requires Agrees(m, accepted, last, window)
    requires WithinLimit(accepted, last, window, Max(maxRequests, 1))
    requires last <= r.time
    ensures var (m', ok) := Step(m, r.ip, r.time, maxRequests, window);
            var accepted' := accepted + if ok then [r] else [];
            Agrees(m', accepted', r.time, window) && WithinLimit(accepted', r.time, window, Max(maxRequests, 1))
  {
    var (m', ok) := Step(m, r.ip, r.time, maxRequests, window);
    var accepted' := accepted + if ok then [r] else [];
    var now := r.time;
    forall ip, later | later >= now
      ensures Recent(Get(m', ip), later, window) == Recent(TimesOf(accepted', ip), later, window)
    {
      var added: seq<int> := if ok && ip == r.ip then [now] else [];
      AcceptedTimes(accepted, r, ok, ip);
      assert Get(m', ip) == Recent(Get(m, ip), now, window) + added;
      RecentAppend(Recent(Get(m, ip), now, window), added, later, window);
      RecentAppend(TimesOf(accepted, ip), added, later, window);
      RecentOfRecent(Get(m, ip), now, later, window);
    }
    forall ip
      ensures |Recent(TimesOf(accepted', ip), now, window)| <= Max(maxRequests, 1)
    {
      var added: seq<int> := if ok && ip == r.ip then [now] else [];
      AcceptedTimes(accepted, r, ok, ip);
      RecentAppend(TimesOf(accepted, ip), added, now, window);
      RecentShrinks(TimesOf(accepted, ip), last, now, window);
      if ok && ip == r.ip {
        assert Recent(Get(m, ip), now, window) == Recent(TimesOf(accepted, ip), now, window);
      }
    }
  }

  /**
   * The sliding-window guarantee: when requests arrive in time order, then after
   * every request, no IP has more than `maxRequests` accepted requests (one, when
   * `maxRequests` is below one) in the window ending at that request's time.
   */
  lemma {:induction false} RunWithinLimit(reqs: seq<Request>, maxRequests: int, window: int)
    requires Chronological(reqs) && reqs != []
    ensures var (m, accepted) := Run(reqs, maxRequests, window);
            && Agrees(m, accepted, reqs[|reqs| - 1].time, window)
            && WithinLimit(accepted, reqs[|reqs| - 1].time, window, Max(maxRequests, 1))
    decreases |reqs|
  {
    var n := |reqs|;
    var prefix := reqs[..n - 1];
    var r := reqs[n - 1];
    if n == 1 {
      assert Agrees(map[], [], r.time, window);
      assert WithinLimit([], r.time, window, Max(maxRequests, 1));
      StepKeepsLimit(map[], [], r.time, r, maxRequests, window);
    } else {
      RunWithinLimit(prefix, maxRequests, window);
      var (m, accepted) := Run(prefix, maxRequests, window);
      StepKeepsLimit(m, accepted, prefix[n - 2].time, r, maxRequests, window);
    }
  }
}
