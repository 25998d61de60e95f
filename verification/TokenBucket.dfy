/** The per-key rate limiter: one bucket object per key, refilled and charged in place. The clock
    readings of each call are its parameters. */
module TokenBucket {
  import opened RateBounds
  import opened RateTerms

  class Bucket {
    var tokens: real
    var lastRefill: real

    constructor (tokens: real, lastRefill: real)
      ensures this.tokens == tokens && this.lastRefill == lastRefill
    {
      this.tokens := tokens;
      this.lastRefill := lastRefill;
    }
  }

  /** A moment or a duration. A quotient by a rate of zero is an infinity or not a number in Go, and what
      its conversion gives is left open there: `Undefined`. */
  datatype Moment = Unset | At(time: real) | Undefined

  datatype Result = Result(allowed: bool, remaining: int, retryAfter: Moment, resetAt: Moment)

  /** A conversion to an integer drops the fraction. */
  ghost predicate TruncatesTo(x: real, n: int) {
    if x >= 0.0 then n as real <= x < n as real + 1.0 else n as real - 1.0 < x <= n as real
  }

  class Limiter {
    var buckets: map<string, Bucket>
    const rate: int
    const burstSize: int
    const window: real

    ghost predicate Valid()
      reads this
    {
      Config().Valid() && forall j, k :: j in buckets && k in buckets && j != k ==> buckets[j] != buckets[k]
    }

    function Config(): Config { RateBounds.Config(rate, window, burstSize) }

    /** The moment, counted from `start`, at which `tokens` have grown to `needed`. */
    ghost predicate Waits(tokens: real, needed: int, moment: Moment, start: real)
      requires Config().Valid()
    {
      if rate == 0 then moment == Undefined
      else
        && moment == At(start + WaitFor(Config(), tokens, needed))
        && (moment.time - start) * rate as real == (needed as real - tokens) * window
    }

    /** Whole tokens left, how long a denied request has to wait, and when the bucket is full again. */
    ghost predicate Reports(tokens: real, n: int, now: real, r: Result)
      requires Config().Valid()
    {
      && TruncatesTo(tokens, r.remaining)
      && (if r.allowed then r.retryAfter == At(0.0) else Waits(tokens, n, r.retryAfter, 0.0))
      && Waits(tokens, burstSize, r.resetAt, now)
    }

    ghost function LevelOf(key: string): Level
      reads this, buckets.Values
    {
      if key in buckets then Level(buckets[key].tokens, buckets[key].lastRefill) else NoBucket
    }

    constructor (rate: int, window: real, burstSize: int)
      requires rate >= 0 && window > 0.0
      ensures Valid() && buckets == map[]
      ensures Config() == RateBounds.Config(rate, window, if burstSize == 0 then rate else burstSize)
    {
      this.rate := rate;
      this.window := window;
      this.burstSize := if burstSize == 0 then rate else burstSize;
      buckets := map[];
    }

    /** Refills the bucket of `key` and charges it if it can. */
    method Charge(key: string, n: int, asked: real, marked: real) returns (allowed: bool)
      requires Valid() && key in buckets
      modifies buckets.Values
      ensures Valid() && (LevelOf(key), allowed) == Serve(Config(), old(LevelOf(key)), Request(n, asked, marked))
      ensures forall k :: k != key ==> LevelOf(k) == old(LevelOf(k))
    {
      var b := buckets[key];
      var elapsed := asked - b.lastRefill;
      var refillRate := rate as real / window;
      var tokensToAdd := refillRate * elapsed;
      assert tokensToAdd == Config().Speed() * elapsed;
      b.tokens := Min(b.tokens + tokensToAdd, burstSize as real);
      b.lastRefill := marked;
      ghost var refilled := b.tokens;
      assert refilled == Refilled(Config(), old(LevelOf(key)).tokens, elapsed);
      allowed := n as real <= b.tokens;
      if allowed {
        b.tokens := b.tokens - n as real;
        assert LevelOf(key) == Level(refilled - n as real, marked);
      }
    }

    /** Creates the bucket of a key that has none, unless more than a full one is asked for. */
    method Create(key: string, n: int, marked: real) returns (allowed: bool)
      requires Valid() && key !in buckets
      modifies this`buckets
      ensures Valid() && fresh(buckets.Values - old(buckets.Values)) && (allowed <==> key in buckets)
      ensures forall asked :: (LevelOf(key), allowed) == Serve(Config(), NoBucket, Request(n, asked, marked))
      ensures forall k :: k != key ==> LevelOf(k) == old(LevelOf(k))
    {
      allowed := n <= burstSize;
      if allowed {
        var b := new Bucket((burstSize - n) as real, marked);
        buckets := buckets[key := b];
      }
    }

    /** Serves one request for `key` and leaves every other key alone. */
    method AllowN(key: string, n: int, asked: real, marked: real) returns (allowed: bool)
      requires Valid()
      modifies this, buckets.Values
      ensures Valid() && fresh(buckets.Values - old(buckets.Values))
      ensures (LevelOf(key), allowed) == Serve(Config(), old(LevelOf(key)), Request(n, asked, marked))
      ensures Serves(Config(), old(LevelOf(key)), Request(n, asked, marked), LevelOf(key), allowed)
      ensures forall k :: k != key ==> LevelOf(k) == old(LevelOf(k))
    {
      ServeInTerms(Config(), LevelOf(key), Request(n, asked, marked));
      if key !in buckets {
        allowed := Create(key, n, marked);
        return;
      }
      allowed := Charge(key, n, asked, marked);
    }

    /** Forgets a key: its next request starts with a full bucket. */
    method Reset(key: string)
      requires Valid()
      modifies this
      ensures Valid() && LevelOf(key) == NoBucket && buckets.Values <= old(buckets.Values)
      ensures forall k :: k != key ==> LevelOf(k) == old(LevelOf(k))
    {
      buckets := buckets - {key};
    }

    /** What a caller is told about a bucket. Changes nothing. */
    method BuildResult(b: Bucket?, allowed: bool, requestedTokens: int, now: real) returns (r: Result)
      requires Valid()
      ensures b == null ==> r == Result(false, 0, At(0.0), Unset)
      ensures b != null ==> r.allowed == allowed && Reports(b.tokens, requestedTokens, now, r)
    {
      if b == null {
        return Result(false, 0, At(0.0), Unset);
      }
      var remaining := if b.tokens >= 0.0 then b.tokens.Floor else -((-b.tokens).Floor);
      var refillRate := rate as real / window;
      var retryAfter := At(0.0);
      if !allowed {
        var tokensNeeded := requestedTokens as real - b.tokens;
        retryAfter := if rate == 0 then Undefined else At(tokensNeeded / refillRate);
      }
      var tokensToFull := burstSize as real - b.tokens;
      var resetAt := if rate == 0 then Undefined else At(now + tokensToFull / refillRate);
      if rate != 0 {
        WaitInTerms(Config(), b.tokens, requestedTokens);
        WaitInTerms(Config(), b.tokens, burstSize);
      }
      r := Result(allowed, remaining, retryAfter, resetAt);
    }

    /** Decides like AllowN, and reports on the level it leaves. */
    method AllowWithInfo(key: string, n: int, asked: real, marked: real, now: real) returns (r: Result)
      requires Valid()
      modifies this, buckets.Values
      ensures Valid() && fresh(buckets.Values - old(buckets.Values))
      ensures (LevelOf(key), r.allowed) == Serve(Config(), old(LevelOf(key)), Request(n, asked, marked))
      ensures Serves(Config(), old(LevelOf(key)), Request(n, asked, marked), LevelOf(key), r.allowed)
      ensures forall k :: k != key ==> LevelOf(k) == old(LevelOf(k))
      ensures match LevelOf(key)
        case NoBucket => r == Result(false, 0, At(0.0), Unset)
        case Level(tokens, _) => Reports(tokens, n, now, r)
    {
      ServeInTerms(Config(), LevelOf(key), Request(n, asked, marked));
      var allowed;
      if key !in buckets {
        allowed := Create(key, n, marked);
      } else {
        allowed := Charge(key, n, asked, marked);
      }
      var b: Bucket? := if key in buckets then buckets[key] else null;
      r := BuildResult(b, allowed, n, now);
    }
  }
}
