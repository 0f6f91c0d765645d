/** The fixed-window request limiter of lib/rateLimiter.ts: a map from caller
    key to a bucket holding the number of requests seen in the current window
    and the instant the window ends. The clock reading `Date.now()` is the
    parameter `now` (milliseconds). */
module RateLimiter {
  import opened Optional
  import JsString

  const DefaultLimit: int := 10
  const DefaultWindowMs: int := 60_000

  datatype BucketState = BucketState(count: int, expiresAt: int)

  datatype RateLimitResult = RateLimitResult(success: bool, retryAfterSeconds: int, remaining: int)

  /** `Math.ceil(ms / 1000)` */
  function CeilSeconds(ms: int): (s: int)
    ensures (s - 1) * 1000 < ms <= s * 1000
  {
    -((-ms) / 1000)
  }

  /** A bucket that still counts at instant `now`. */
  predicate Live(buckets: map<string, BucketState>, key: string, now: int) {
    key in buckets && now < buckets[key].expiresAt
  }

  /** One call of `ensureRateLimit(key, limit, windowMs)` at instant `now`:
      the new map and the result. A missing or lapsed bucket is replaced by a
      fresh window holding this request; a live bucket at its limit rejects
      and is left alone; otherwise the request is counted. No other key's
      entry is touched. */
  function Step(buckets: map<string, BucketState>, key: string, limit: int, windowMs: int, now: int)
    : (res: (map<string, BucketState>, RateLimitResult))
    ensures key in res.0
    ensures forall k :: k != key ==> (k in res.0 <==> k in buckets)
    ensures forall k :: k != key && k in buckets ==> res.0[k] == buckets[k]
    ensures !Live(buckets, key, now) ==>
      res.0[key] == BucketState(1, now + windowMs) && res.1 == RateLimitResult(true, 0, limit - 1)
    ensures Live(buckets, key, now) && buckets[key].count >= limit ==>
      res.0 == buckets && !res.1.success && res.1.remaining == 0
      && res.1.retryAfterSeconds >= 1
      && (res.1.retryAfterSeconds - 1) * 1000 < buckets[key].expiresAt - now <= res.1.retryAfterSeconds * 1000
    ensures Live(buckets, key, now) && buckets[key].count < limit ==>
      res.0[key] == BucketState(buckets[key].count + 1, buckets[key].expiresAt)
      && res.1 == RateLimitResult(true, 0, limit - res.0[key].count)
  {
    if key !in buckets || buckets[key].expiresAt <= now then
      (buckets[key := BucketState(1, now + windowMs)], RateLimitResult(true, 0, limit - 1))
    else
      var bucket := buckets[key];
      if bucket.count >= limit then
        (buckets, RateLimitResult(false, CeilSeconds(bucket.expiresAt - now), 0))
      else
        var bumped := bucket.(count := bucket.count + 1);
        (buckets[key := bumped], RateLimitResult(true, 0, limit - bumped.count))
  }

  /** Every bucket has counted at least the request that created it. */
  ghost predicate CountsPositive(buckets: map<string, BucketState>) {
    forall k :: k in buckets ==> buckets[k].count >= 1
  }

  /** The module-level `buckets` map and `ensureRateLimit` over it. */
  class Limiter {
    var buckets: map<string, BucketState>

    ghost predicate Valid()
      reads this
    {
      CountsPositive(buckets)
    }

    constructor()
      ensures Valid() && buckets == map[]
    {
      buckets := map[];
    }

    /** `ensureRateLimit(key, limit, windowMs)` called at instant `now`. */
    method EnsureRateLimit(key: string, now: int, limit: int := DefaultLimit, windowMs: int := DefaultWindowMs)
      returns (result: RateLimitResult)
      requires Valid()
      modifies this
      ensures Valid()
      ensures (buckets, result) == Step(old(buckets), key, limit, windowMs, now)
    {
      if key !in buckets || buckets[key].expiresAt <= now {
        buckets := buckets[key := BucketState(1, now + windowMs)];
        return RateLimitResult(true, 0, limit - 1);
      }
      var bucket := buckets[key];
      if bucket.count >= limit {
        return RateLimitResult(false, CeilSeconds(bucket.expiresAt - now), 0);
      }
      bucket := bucket.(count := bucket.count + 1);
      buckets := buckets[key := bucket];
      return RateLimitResult(true, 0, limit - bucket.count);
    }
  }

  /** A caller that passes neither a limit nor a window gets 10 requests per
      60-second window: the first call on a fresh limiter succeeds with 9
      remaining and opens a window ending 60000 ms later. */
  method FirstCallUnderDefaults(key: string, now: int) returns (result: RateLimitResult, windowEnd: int)
    ensures result == RateLimitResult(true, 0, 9)
    ensures windowEnd == now + 60_000
  {
    var limiter := new Limiter();
    result := limiter.EnsureRateLimit(key, now);
    windowEnd := limiter.buckets[key].expiresAt;
  }

  // ---------------------------------------------------------------------
  // Properties of a sequence of calls

  /** The results of `n` successive calls on `key` at the same instant. */
  function Calls(buckets: map<string, BucketState>, key: string, limit: int, windowMs: int, now: int, n: nat)
    : (rs: seq<RateLimitResult>)
    ensures |rs| == n
    decreases n
  {
    if n == 0 then []
    else
      var (next, r) := Step(buckets, key, limit, windowMs, now);
      [r] + Calls(next, key, limit, windowMs, now, n - 1)
  }

  /** How many more calls on `key` can still succeed within the current
      window: the full limit when no window is open. */
  function Allowance(buckets: map<string, BucketState>, key: string, limit: int, now: int): int {
    if !Live(buckets, key, now) then limit
    else if buckets[key].count >= limit then 0
    else limit - buckets[key].count
  }

  /** Inside one window, calls succeed until the allowance is used up and fail
      from then on. */
  lemma {:induction false} CallsPattern(buckets: map<string, BucketState>, key: string, limit: int,
                                        windowMs: int, now: int, n: nat)
    requires limit >= 1 && windowMs >= 1
    ensures var rs := Calls(buckets, key, limit, windowMs, now, n);
      forall i :: 0 <= i < n ==> (rs[i].success <==> i < Allowance(buckets, key, limit, now))
    decreases n
  {
    if n > 0 {
      var (next, r) := Step(buckets, key, limit, windowMs, now);
      CallsPattern(next, key, limit, windowMs, now, n - 1);
      var rs := Calls(buckets, key, limit, windowMs, now, n);
      assert rs == [r] + Calls(next, key, limit, windowMs, now, n - 1);
      if r.success {
        assert Allowance(next, key, limit, now) == Allowance(buckets, key, limit, now) - 1;
      } else {
        assert Allowance(buckets, key, limit, now) == 0 && next == buckets;
      }
      forall i | 0 <= i < n
        ensures rs[i].success <==> i < Allowance(buckets, key, limit, now)
      {
        if i > 0 {
          assert rs[i] == Calls(next, key, limit, windowMs, now, n - 1)[i - 1];
        }
      }
    }
  }

  /** With a fixed `limit >= 1` and a positive window, at most `limit` calls
      on one key succeed at one instant: every call after the `limit`-th fails. */
  lemma {:induction false} AtMostLimitPerWindow(buckets: map<string, BucketState>, key: string, limit: int,
                             windowMs: int, now: int, n: nat)
    requires limit >= 1 && windowMs >= 1
    requires CountsPositive(buckets)
    ensures var rs := Calls(buckets, key, limit, windowMs, now, n);
      forall i :: limit <= i < n ==> !rs[i].success
  {
    CallsPattern(buckets, key, limit, windowMs, now, n);
  }

  /** With limit 3 and a fresh key, four calls give success, success,
      success, failure. */
  lemma {:induction false} FourCallsWithLimitThree(key: string, windowMs: int, now: int)
    requires windowMs >= 1
    ensures var rs := Calls(map[], key, 3, windowMs, now, 4);
      rs[0].success && rs[1].success && rs[2].success && !rs[3].success
  {
    CallsPattern(map[], key, 3, windowMs, now, 4);
  }

  /** The counter of a window never passes the limit it is used with. */
  lemma {:induction false} CountStaysWithinLimit(buckets: map<string, BucketState>, key: string, limit: int, windowMs: int, now: int)
    requires limit >= 1
    requires Live(buckets, key, now) ==> buckets[key].count <= limit
    ensures Step(buckets, key, limit, windowMs, now).0[key].count <= limit
  {
  }

  /** After a rejection, retrying `retryAfterSeconds` later finds the window
      over and starts a fresh one, while retrying a second earlier than that
      may still find it open: the advertised wait is the least whole number
      of seconds that suffices. */
  lemma {:induction false} RetryAfterIsTight(buckets: map<string, BucketState>, key: string, limit: int, windowMs: int, now: int)
    requires Live(buckets, key, now) && buckets[key].count >= limit
    ensures var (next, r) := Step(buckets, key, limit, windowMs, now);
      && !Live(next, key, now + 1000 * r.retryAfterSeconds)
      && Live(next, key, now + 1000 * (r.retryAfterSeconds - 1))
      && Step(next, key, limit, windowMs, now + 1000 * r.retryAfterSeconds).1.success
  {
  }

  // ---------------------------------------------------------------------
  // getClientIdentifier (lib/rateLimiter.ts:19-29)

  /** The limiter key for a request, from the `x-forwarded-for` and
      `x-real-ip` header values (`None` when a header is absent). A non-empty
      forwarded-for header decides alone: its first entry, trimmed, or
      "unknown" when that entry is blank. */
  function GetClientIdentifier(forwardedFor: Option<string>, realIp: Option<string>): (id: string)
    ensures forwardedFor.Some? && forwardedFor.value != "" ==> id != "" && ',' !in id
    ensures forwardedFor.Some? && forwardedFor.value != "" ==>
      var entry := JsString.Split(forwardedFor.value, ',')[0];
      && (JsString.AllWhitespace(entry) ==> id == "unknown")
      && (!JsString.AllWhitespace(entry) ==> id == JsString.Trim(entry))
    ensures (forwardedFor.None? || forwardedFor.value == "") && realIp.Some? && realIp.value != "" ==>
      id == JsString.Trim(realIp.value)
    ensures (forwardedFor.None? || forwardedFor.value == "") && (realIp.None? || realIp.value == "") ==>
      id == "unknown"
  {
    if forwardedFor.Some? && forwardedFor.value != "" then
      var entry := JsString.Split(forwardedFor.value, ',')[0];
      var first := JsString.Trim(entry);
      assert ',' !in first by {
        JsString.FirstPiece(forwardedFor.value, ',');
        TrimKeepsAbsent(entry, ',');
      }
      JsString.TrimEmptyIff(entry);
      if first != "" then first else "unknown"
    else if realIp.Some? && realIp.value != "" then JsString.Trim(realIp.value)
    else "unknown"
  }

  lemma {:induction false} TrimKeepsAbsent(s: string, c: char)
    requires c !in s
    ensures c !in JsString.Trim(s)
  {
  }

  /** A forwarded-for header names its first hop: the identifier is that
      entry (the text before the first comma) without surrounding whitespace,
      or "unknown" exactly when the entry is blank. */
  lemma {:induction false} ForwardedFirstHop(forwardedFor: string, realIp: Option<string>)
    requires forwardedFor != ""
    ensures var entry := JsString.Split(forwardedFor, ',')[0];
      var id := GetClientIdentifier(Some(forwardedFor), realIp);
      && ',' !in entry
      && (entry == forwardedFor || JsString.StartsWith(forwardedFor, entry + [',']))
      && (!JsString.AllWhitespace(entry) ==> id == JsString.Trim(entry) && id != "")
      && (JsString.AllWhitespace(entry) ==> id == "unknown")
  {
    var entry := JsString.Split(forwardedFor, ',')[0];
    JsString.FirstPiece(forwardedFor, ',');
    JsString.TrimEmptyIff(entry);
  }
}
