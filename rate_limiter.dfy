/**
 * `RateLimiterMiddleware` (middleware.py): the second sliding-window limiter.
 * Unlike `RateLimitMiddleware` it prunes only the requesting IP's list, keeps
 * IPs whose list has emptied, and answers a bare 429 without a retry delay.
 *
 * Its limits come from settings the configuration does not define, so they are
 * constructor parameters here; clock readings are whole numbers passed in.
 */
module RateLimiter {
  import opened Common
  import opened RateLimit

  /**
   * One request from `ip` at `now`: the new lists and whether it was accepted.
   * It is rejected exactly when the IP is tracked and already holds at least
   * `maxRequests` timestamps inside the window. Only the IP's own list changes:
   * it keeps its in-window timestamps, plus `now` when accepted. No IP is ever
   * removed.
   */
  function PruneStep(m: Log, ip: string, now: int, maxRequests: int, window: int): (r: (Log, bool))
    ensures r.1 <==> ip !in m || |Recent(m[ip], now, window)| < maxRequests
    ensures Get(r.0, ip) == Recent(Get(m, ip), now, window) + (if r.1 then [now] else [])
    ensures ip in m || r.1 <==> ip in r.0
    ensures forall other :: other != ip ==> (other in r.0 <==> other in m) && Get(r.0, other) == Get(m, other)
  {
    var pruned := if ip in m then m[ip := Recent(m[ip], now, window)] else m;
    if ip in pruned && |pruned[ip]| >= maxRequests then (pruned, false)
    else (pruned[ip := Get(pruned, ip) + [now]], true)
  }

  class RateLimiterMiddleware {
    const maxRequests: int
    const timeWindow: int
    var requests: Log

    /** No IP holds more than `maxRequests` timestamps (one, when `maxRequests` is below one). */
    ghost predicate Valid()
      reads this
    {
      forall ip :: ip in requests ==> |requests[ip]| <= Max(maxRequests, 1)
    }

    constructor (maxRequests: int, timeWindow: int)
      ensures Valid()
      ensures this.maxRequests == maxRequests && this.timeWindow == timeWindow && requests == map[]
    {
      this.maxRequests := maxRequests;
      this.timeWindow := timeWindow;
      requests := map[];
    }

    /**
     * `dispatch`: prunes the IP's list, answers 429 (`accepted == false`)
     * when the IP is still at its limit, and otherwise records `now` for it.
     */
    method Dispatch(ip: string, now: int) returns (accepted: bool)
      requires Valid()
      modifies this
      ensures Valid()
      ensures (requests, accepted) == PruneStep(old(requests), ip, now, maxRequests, timeWindow)
    {
      if ip in requests {
        requests := requests[ip := Recent(requests[ip], now, timeWindow)];
      }
      if ip in requests && |requests[ip]| >= maxRequests {
        return false;
      }
      ghost var pruned := requests;
      if ip !in requests {
        requests := requests[ip := []];
      }
      requests := requests[ip := requests[ip] + [now]];
      accepted := true;
      assert requests == pruned[ip := Get(pruned, ip) + [now]];
    }
  }

  /** Running the requests in order from empty lists: the final lists and the accepted requests. */
  function RunPruned(reqs: seq<Request>, maxRequests: int, window: int): (Log, seq<Request>)
    decreases |reqs|
  {
    if reqs == [] then (map[], [])
    else
      var n := |reqs|;
      var (m, accepted) := RunPruned(reqs[..n - 1], maxRequests, window);
      var (m', ok) := PruneStep(m, reqs[n - 1].ip, reqs[n - 1].time, maxRequests, window);
      (m', accepted + if ok then [reqs[n - 1]] else [])
  }

  /** One step keeps the lists in agreement with the accepted requests. */
  lemma PruneStepAgrees(m: Log, accepted: seq<Request>, last: int, r: Request, maxRequests: int, window: int)
    requires Agrees(m, accepted, last, window)
    requires last <= r.time
    ensures var (m', ok) := PruneStep(m, r.ip, r.time, maxRequests, window);
            Agrees(m', accepted + if ok then [r] else [], r.time, window)
  {
    var (m', ok) := PruneStep(m, r.ip, r.time, maxRequests, window);
    var accepted' := accepted + if ok then [r] else [];
    var now := r.time;
    forall ip, later | later >= now
      ensures Recent(Get(m', ip), later, window) == Recent(TimesOf(accepted', ip), later, window)
    {
      AcceptedTimes(accepted, r, ok, ip);
      var added: seq<int> := if ok && ip == r.ip then [now] else [];
      RecentAppend(TimesOf(accepted, ip), added, later, window);
      if ip == r.ip {
        PrunedListAgrees(Get(m, ip), TimesOf(accepted, ip), added, now, later, window);
      } else {
        assert TimesOf(accepted, ip) + added == TimesOf(accepted, ip);
      }
    }
  }

  /** The requesting IP's pruned list, extended like its accepted times, still agrees with them later on. */
  lemma PrunedListAgrees(ts: seq<int>, times: seq<int>, added: seq<int>, now: int, later: int, window: int)
    requires now <= later
    requires Recent(ts, later, window) == Recent(times, later, window)
    ensures Recent(Recent(ts, now, window) + added, later, window) == Recent(times, later, window) + Recent(added, later, window)
  {
    RecentAppend(Recent(ts, now, window), added, later, window);
    RecentOfRecent(ts, now, later, window);
  }

  /** One step keeps each IP within the limit. */
  lemma PruneStepBounded(m: Log, accepted: seq<Request>, last: int, r: Request, maxRequests: int, window: int)
    requires Agrees(m, accepted, last, window)
    requires WithinLimit(accepted, last, window, Max(maxRequests, 1))
    requires last <= r.time
    ensures var (m', ok) := PruneStep(m, r.ip, r.time, maxRequests, window);
            WithinLimit(accepted + if ok then [r] else [], r.time, window, Max(maxRequests, 1))
  {
    var (m', ok) := PruneStep(m, r.ip, r.time, maxRequests, window);
    var accepted' := accepted + if ok then [r] else [];
    var now := r.time;
    forall ip
      ensures |Recent(TimesOf(accepted', ip), now, window)| <= Max(maxRequests, 1)
    {
      var added: seq<int> := if ok && ip == r.ip then [now] else [];
      AcceptedTimes(accepted, r, ok, ip);
      RecentAppend(TimesOf(accepted, ip), added, now, window);
      RecentShrinks(TimesOf(accepted, ip), last, now, window);
      if ok && ip == r.ip {
        assert Recent(Get(m, ip), now, window) == Recent(TimesOf(accepted, ip), now, window);
      }
    }
  }

  /** One step keeps the lists in agreement with the accepted requests, and keeps each IP within the limit. */
  lemma PruneStepKeepsLimit(m: Log, accepted: seq<Request>, last: int, r: Request, maxRequests: int, window: int)
    requires Agrees(m, accepted, last, window)
    requires WithinLimit(accepted, last, window, Max(maxRequests, 1))
    requires last <= r.time
    ensures var (m', ok) := PruneStep(m, r.ip, r.time, maxRequests, window);
            var accepted' := accepted + if ok then [r] else [];
            Agrees(m', accepted', r.time, window) && WithinLimit(accepted', r.time, window, Max(maxRequests, 1))
  {
    PruneStepAgrees(m, accepted, last, r, maxRequests, window);
    PruneStepBounded(m, accepted, last, r, maxRequests, window);
  }

  /**
   * The sliding-window guarantee for this limiter: when requests arrive in time
   * order, then after every request no IP has more than `maxRequests` accepted
   * requests (one, when `maxRequests` is below one) in the window ending then.
   */
  lemma {:induction false} RunPrunedWithinLimit(reqs: seq<Request>, maxRequests: int, window: int)
    requires Chronological(reqs) && reqs != []
    ensures var (m, accepted) := RunPruned(reqs, maxRequests, window);
            && Agrees(m, accepted, reqs[|reqs| - 1].time, window)
            && WithinLimit(accepted, reqs[|reqs| - 1].time, window, Max(maxRequests, 1))
    decreases |reqs|
  {
    var n := |reqs|;
    var prefix := reqs[..n - 1];
    var r := reqs[n - 1];
    if n == 1 {
      assert Agrees(map[], [], r.time, window);
      assert WithinLimit([], r.time, window, Max(maxRequests, 1));
      PruneStepKeepsLimit(map[], [], r.time, r, maxRequests, window);
    } else {
      RunPrunedWithinLimit(prefix, maxRequests, window);
      var (m, accepted) := RunPruned(prefix, maxRequests, window);
      PruneStepKeepsLimit(m, accepted, prefix[n - 2].time, r, maxRequests, window);
    }
  }
}
