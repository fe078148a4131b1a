/** The sliding-window rate limiter of app/middleware/rate_limiter.py. Timestamps, the
    clock reading `now` and the window are integers on one time scale. */
module RateLimit {

  /** The timestamps kept by the pruning comprehension: those `t` with `now - t <= window`,
      in their original order. */
  function Prune(ts: seq<int>, now: int, window: int): (r: seq<int>)
    ensures |r| <= |ts|
    ensures forall i :: 0 <= i < |r| ==> now - r[i] <= window
    ensures forall t :: t in r <==> t in ts && now - t <= window
  {
    if |ts| == 0 then []
    else if now - ts[0] <= window then [ts[0]] + Prune(ts[1..], now, window)
    else Prune(ts[1..], now, window)
  }

  /** Pruning works element by element, so it keeps the relative order of what it keeps. */
  lemma {:induction false} PruneAppend(a: seq<int>, b: seq<int>, now: int, window: int)
    ensures Prune(a + b, now, window) == Prune(a, now, window) + Prune(b, now, window)
  {
    if |a| > 0 {
      assert (a + b)[0] == a[0];
      assert (a + b)[1..] == a[1..] + b;
      PruneAppend(a[1..], b, now, window);
    } else {
      assert a + b == b;
    }
  }

  /** A sequence whose timestamps all lie in the window is kept whole. */
  lemma {:induction false} PruneKeepsRecent(ts: seq<int>, now: int, window: int)
    requires forall i :: 0 <= i < |ts| ==> now - ts[i] <= window
    ensures Prune(ts, now, window) == ts
  {
    if |ts| > 0 {
      PruneKeepsRecent(ts[1..], now, window);
    }
  }

  /** A sequence whose timestamps all lie outside the window is dropped whole. */
  lemma {:induction false} PruneDropsStale(ts: seq<int>, now: int, window: int)
    requires forall i :: 0 <= i < |ts| ==> now - ts[i] > window
    ensures Prune(ts, now, window) == []
  {
    if |ts| > 0 {
      PruneDropsStale(ts[1..], now, window);
    }
  }

  /** The outcome of one admission check: accepted or not, and the sequence stored after. */
  datatype Decision = Decision(admitted: bool, timestamps: seq<int>)

  /** Prune, then reject when the kept count has reached `limit`, else append `now`. The
      pruned sequence is stored in both cases. */
  function Admit(ts: seq<int>, now: int, window: int, limit: int): (d: Decision)
    // What is stored afterwards: the entries inside the window, and `now` if admitted.
    ensures forall t :: t in d.timestamps <==> (t in ts && now - t <= window) || (d.admitted && t == now)
    // An admitted request is stored last and never takes the count past `limit`.
    ensures d.admitted ==> 0 < |d.timestamps| <= limit && d.timestamps[|d.timestamps| - 1] == now
    // A rejection happens only when `limit` entries are already inside the window.
    ensures !d.admitted ==> |d.timestamps| >= limit
  {
    var kept := Prune(ts, now, window);
    if |kept| >= limit then Decision(false, kept) else Decision(true, kept + [now])
  }

  /** A sequence within `limit` stays within it. */
  lemma AdmitKeepsBound(ts: seq<int>, now: int, window: int, limit: int)
    requires |ts| <= limit
    ensures |Admit(ts, now, window, limit).timestamps| <= limit
  {
  }

  /** Timestamps older than the window do not count toward the limit. */
  lemma StaleEntriesDoNotCount(stale: seq<int>, ts: seq<int>, now: int, window: int, limit: int)
    requires forall i :: 0 <= i < |stale| ==> now - stale[i] > window
    ensures Admit(stale + ts, now, window, limit) == Admit(ts, now, window, limit)
  {
    PruneAppend(stale, ts, now, window);
    PruneDropsStale(stale, now, window);
    assert [] + Prune(ts, now, window) == Prune(ts, now, window);
  }

  /** The decisions for requests arriving at `times`, one after the other, starting from
      the stored sequence `ts`, and the sequence stored at the end. */
  function Run(ts: seq<int>, times: seq<int>, window: int, limit: int): (r: (seq<bool>, seq<int>))
    ensures |r.0| == |times|
    decreases |times|
  {
    if |times| == 0 then ([], ts)
    else
      var d := Admit(ts, times[0], window, limit);
      var rest := Run(d.timestamps, times[1..], window, limit);
      ([d.admitted] + rest.0, rest.1)
  }

  /** Starting within the limit (for example, empty), the stored sequence never grows past
      `limit`, however many requests arrive. */
  lemma {:induction false} RunKeepsBound(ts: seq<int>, times: seq<int>, window: int, limit: int)
    requires |ts| <= limit
    ensures |Run(ts, times, window, limit).1| <= limit
    decreases |times|
  {
    if |times| > 0 {
      AdmitKeepsBound(ts, times[0], window, limit);
      RunKeepsBound(Admit(ts, times[0], window, limit).timestamps, times[1..], window, limit);
    }
  }

  /** `n` copies of the instant `now`. */
  function Repeat(now: int, n: nat): (r: seq<int>)
    ensures |r| == n && forall i :: 0 <= i < n ==> r[i] == now
  {
    seq(n, _ => now)
  }

  /** A burst of `n` requests at one instant, arriving when `i` requests of that instant
      are already stored: the `j`-th of them is admitted exactly when `i + j < limit`. */
  lemma {:induction false} BurstAtOneInstant(i: nat, n: nat, now: int, window: int, limit: int)
    requires window >= 0
    ensures Run(Repeat(now, i), Repeat(now, n), window, limit).0 == seq(n, j => i + j < limit)
    decreases n
  {
    if n > 0 {
      PruneKeepsRecent(Repeat(now, i), now, window);
      assert Repeat(now, n)[0] == now && Repeat(now, n)[1..] == Repeat(now, n - 1);
      var next := if i < limit then i + 1 else i;
      assert Admit(Repeat(now, i), now, window, limit).timestamps == Repeat(now, next) by {
        if i < limit {
          assert Repeat(now, i) + [now] == Repeat(now, i + 1);
        }
      }
      BurstAtOneInstant(next, n - 1, now, window, limit);
      assert [i < limit] + seq(n - 1, j => next + j < limit) == seq(n, j => i + j < limit);
    }
  }

  /** With limit 5, five requests at one instant are admitted and the sixth is rejected. */
  lemma FiveAdmittedThenRejected(now: int, window: int)
    requires window >= 0
    ensures Run([], [now, now, now, now, now, now], window, 5).0
            == [true, true, true, true, true, false]
  {
    BurstAtOneInstant(0, 6, now, window, 5);
    assert Repeat(now, 0) == [];
    assert Repeat(now, 6) == [now, now, now, now, now, now];
  }

  /** A timestamp 12 seconds old, with a 10-second window and limit 5, blocks nothing:
      five requests at `now` are all admitted. */
  lemma StaleEntryThenFiveAdmitted(now: int)
    ensures Run([now - 12], Repeat(now, 5), 10, 5).0 == [true, true, true, true, true]
  {
    StaleEntriesDoNotCount([now - 12], [], now, 10, 5);
    assert [now - 12] + [] == [now - 12];
    BurstAtOneInstant(0, 5, now, 10, 5);
    assert Repeat(now, 0) == [];
    assert Repeat(now, 5)[0] == now;
  }

  /** When every key's sequence is within `limit`, it stays so after a per-key check. */
  lemma AdmitKeyKeepsBound(history: map<string, seq<int>>, key: string, now: int, window: int, limit: int)
    requires forall k :: k in history ==> |history[k]| <= limit
    ensures var r := AdmitKey(history, key, now, window, limit);
            forall k :: k in r.1 ==> |r.1[k]| <= limit
  {
    AdmitKeyIsAdmitOnKey(history, key, now, window, limit);
  }

  /** The per-key decision of `rate_limit_middleware_per_ip`: the key's sequence, if
      present, is replaced by its pruned form; the request is rejected when the pruned
      count (0 for an unknown key) has reached `limit`; otherwise the key's sequence,
      created empty if missing, gets `now` appended. */
  function AdmitKey(history: map<string, seq<int>>, key: string, now: int, window: int, limit: int)
    : (r: (bool, map<string, seq<int>>))
    // The key is added only on admission; no other key is added, removed or changed.
    ensures r.1.Keys == history.Keys + (if r.0 then {key} else {})
    ensures forall k :: k in history && k != key ==> r.1[k] == history[k]
    // An admitted request is stored last in its key's sequence.
    ensures r.0 ==> |r.1[key]| > 0 && r.1[key][|r.1[key]| - 1] == now
  {
    var pruned := if key in history then history[key := Prune(history[key], now, window)] else history;
    var current := if key in pruned then pruned[key] else [];
    if |current| >= limit then (false, pruned)
    else
      var created := if key !in pruned then pruned[key := []] else pruned;
      (true, created[key := created[key] + [now]])
  }

  /** The per-key variant runs the global algorithm on that key's sequence (an unknown key
      counting as empty), creates the key only on an admitted request, and leaves every
      other key untouched. */
  lemma AdmitKeyIsAdmitOnKey(history: map<string, seq<int>>, key: string, now: int, window: int, limit: int)
    ensures var r := AdmitKey(history, key, now, window, limit);
            var d := Admit(if key in history then history[key] else [], now, window, limit);
            && r.0 == d.admitted
            && (key in r.1 <==> key in history || d.admitted)
            && (key in r.1 ==> r.1[key] == d.timestamps)
            && (forall k :: k != key ==> (k in r.1 <==> k in history))
            && (forall k :: k != key && k in history ==> r.1[k] == history[k])
  {
  }

  /** Two keys do not share a budget: admitting a request for one key does not change the
      decision for another. */
  lemma KeysAreIsolated(history: map<string, seq<int>>, a: string, b: string, now: int, window: int, limit: int)
    requires a != b
    ensures AdmitKey(AdmitKey(history, a, now, window, limit).1, b, now, window, limit).0
            == AdmitKey(history, b, now, window, limit).0
  {
    AdmitKeyIsAdmitOnKey(history, a, now, window, limit);
  }

  /** The limiter (`RateLimiter`): one global sequence and one sequence per client key. */
  class RateLimiter {
    var requestTimestamps: seq<int>
    var requestHistory: map<string, seq<int>>
    const timeWindow: int
    const requestsLimit: int

    /** `__init__`: both stores empty; window and limit come from the configuration. */
    constructor (timeWindow: int, requestsLimit: int)
      ensures requestTimestamps == [] && requestHistory == map[]
      ensures this.timeWindow == timeWindow && this.requestsLimit == requestsLimit
    {
      requestTimestamps := [];
      requestHistory := map[];
      this.timeWindow := timeWindow;
      this.requestsLimit := requestsLimit;
    }

    /** The locked section of `rate_limit_middleware`: prune, check, append. */
    method RateLimitMiddleware(now: int) returns (admitted: bool)
      modifies this`requestTimestamps
      ensures var kept := Prune(old(requestTimestamps), now, timeWindow);
              && (admitted <==> |kept| < requestsLimit)
              && requestTimestamps == if admitted then kept + [now] else kept
      ensures Decision(admitted, requestTimestamps)
              == Admit(old(requestTimestamps), now, timeWindow, requestsLimit)
    {
      requestTimestamps := Prune(requestTimestamps, now, timeWindow);
      if |requestTimestamps| >= requestsLimit {
        return false;
      }
      requestTimestamps := requestTimestamps + [now];
      return true;
    }

    /** The locked section of `rate_limit_middleware_per_ip` for client key `clientIp`. */
    method RateLimitMiddlewarePerIp(clientIp: string, now: int) returns (admitted: bool)
      modifies this`requestHistory
      ensures (admitted, requestHistory)
              == AdmitKey(old(requestHistory), clientIp, now, timeWindow, requestsLimit)
      ensures forall k :: k != clientIp ==> (k in requestHistory <==> k in old(requestHistory))
      ensures forall k :: k != clientIp && k in old(requestHistory) ==> requestHistory[k] == old(requestHistory)[k]
      ensures clientIp in requestHistory <==> clientIp in old(requestHistory) || admitted
    {
      if clientIp in requestHistory {
        requestHistory := requestHistory[clientIp := Prune(requestHistory[clientIp], now, timeWindow)];
      }
      var current := if clientIp in requestHistory then requestHistory[clientIp] else [];
      if |current| >= requestsLimit {
        return false;
      }
      if clientIp !in requestHistory {
        requestHistory := requestHistory[clientIp := []];
      }
      requestHistory := requestHistory[clientIp := requestHistory[clientIp] + [now]];
      return true;
    }
  }
}
