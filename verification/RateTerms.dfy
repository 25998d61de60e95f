/** The limiter in the bare terms of tokens, windows and answers: `rate` tokens come back per `window`,
    never to more than `burst`, and what that makes of a whole history of requests. */
module RateTerms {
  import opened RateBounds

  /** A level of `before` is refilled to `after` in `elapsed` seconds. */
  ghost predicate Refills(c: Config, before: real, after: real, elapsed: real) {
    && after <= c.burst as real
    && (after - before) * c.window <= c.rate as real * elapsed
    && (after == c.burst as real || (after - before) * c.window == c.rate as real * elapsed)
  }

  /** What one request does: the first one for a key finds `burst` tokens, a later one what was left and
      what came back since. Only an admitted request takes its tokens. */
  ghost predicate Serves(c: Config, before: Level, r: Request, after: Level, admitted: bool) {
    match before
    case NoBucket =>
      && (admitted <==> r.n <= c.burst)
      && after == (if admitted then Level((c.burst - r.n) as real, r.marked) else NoBucket)
    case Level(tokens, last) =>
      && (admitted <==> r.n <= c.burst && (r.n as real - tokens) * c.window <= c.rate as real * (r.asked - last))
      && after.Level? && after.lastRefill == r.marked
      && Refills(c, tokens, after.tokens + (if admitted then r.n as real else 0.0), r.asked - last)
  }

  /** A quotient by the window, multiplied out. */
  lemma SpeedInTerms(c: Config, gain: real, elapsed: real)
    requires c.window > 0.0
    ensures gain <= c.Speed() * elapsed <==> gain * c.window <= c.rate as real * elapsed
    ensures gain == c.Speed() * elapsed <==> gain * c.window == c.rate as real * elapsed
  {
    var v, w := c.Speed(), c.window;
    assert v * w == c.rate as real;
    Reorder(v, elapsed, w);
    TimesWindow(gain, v * elapsed, w);
  }

  lemma Reorder(v: real, t: real, w: real)
    ensures v * t * w == v * w * t
  {
  }

  lemma TimesWindow(a: real, b: real, w: real)
    requires w > 0.0
    ensures a <= b <==> a * w <= b * w
    ensures a == b <==> a * w == b * w
  {
    var d := if a <= b then b - a else a - b;
    Scale(w, d);
    Split(w, a, b - a);
    assert a <= b ==> b * w == a * w + w * d;
    assert a > b ==> a * w == b * w + w * d;
  }

  lemma RefilledInTerms(c: Config, tokens: real, elapsed: real)
    requires c.window > 0.0
    ensures Refills(c, tokens, Refilled(c, tokens, elapsed), elapsed)
  {
    SpeedInTerms(c, Refilled(c, tokens, elapsed) - tokens, elapsed);
  }

  /** A bucket gains exactly `rate` tokens in one window, unless it is full before. */
  lemma GainPerWindow(c: Config, tokens: real)
    requires c.Valid()
    ensures
      var gained := Refilled(c, tokens, c.window);
      if tokens + c.rate as real <= c.burst as real then gained == tokens + c.rate as real else gained == c.burst as real
  {
    assert c.Speed() * c.window == c.rate as real;
  }

  lemma ServeInTerms(c: Config, level: Level, r: Request)
    requires c.window > 0.0
    ensures
      var (next, ok) := Serve(c, level, r);
      Serves(c, level, r, next, ok)
  {
    if level.Level? {
      var elapsed := r.asked - level.lastRefill;
      RefilledInTerms(c, level.tokens, elapsed);
      SpeedInTerms(c, r.n as real - level.tokens, elapsed);
    }
  }

  lemma WaitInTerms(c: Config, tokens: real, needed: int)
    requires c.Valid() && c.rate > 0
    ensures WaitFor(c, tokens, needed) * c.rate as real == (needed as real - tokens) * c.window
  {
    var wait := WaitFor(c, tokens, needed);
    assert wait * c.Speed() == needed as real - tokens;
    Reorder(wait, c.window, c.Speed());
    assert c.Speed() * c.window == c.rate as real;
  }

  /** The tokens of the requests from `from` on that were admitted. */
  ghost function Granted(requests: seq<Request>, answers: seq<bool>, from: nat): int
    requires |answers| == |requests| && from <= |requests|
  {
    var n := |requests| - 1;
    if from == |requests| then 0
    else Granted(requests[..n], answers[..n], from) + if answers[n] then requests[n].n else 0
  }

  ghost predicate Answered(c: Config, requests: seq<Request>, answers: seq<bool>)
    requires c.window > 0.0
  {
    && |answers| == |requests|
    && forall k {:trigger answers[k]} :: 0 <= k < |requests| ==>
        answers[k] == Serve(c, Replay(c, requests[..k]).0, requests[k]).1
  }

  lemma FrontAnswered(c: Config, requests: seq<Request>, answers: seq<bool>, n: nat)
    requires c.window > 0.0 && Answered(c, requests, answers) && n <= |requests|
    ensures Answered(c, requests[..n], answers[..n])
  {
    forall k | 0 <= k < n ensures answers[..n][k] == Serve(c, Replay(c, requests[..n][..k]).0, requests[..n][k]).1 {
      assert requests[..n][..k] == requests[..k];
    }
  }

  /** The entries of a replay are the requests since the bucket was created; before that nothing was granted. */
  ghost predicate Aligned(requests: seq<Request>, answers: seq<bool>, entries: seq<Entry>, i: nat)
    requires |answers| == |requests| && i <= |requests|
  {
    && |entries| <= |requests|
    && var created := |requests| - |entries|;
      if i < created then Granted(requests, answers, i) == GrantedSince(entries, 0)
      else
        && Granted(requests, answers, i) == GrantedSince(entries, i - created)
        && (i < |requests| ==> requests[i].asked <= entries[i - created].time <= requests[i].marked)
  }

  lemma {:induction false} EntriesAligned(c: Config, requests: seq<Request>, answers: seq<bool>, i: nat)
    requires c.window > 0.0 && InOrder(requests) && Answered(c, requests, answers) && i <= |requests|
    ensures Aligned(requests, answers, Replay(c, requests).1, i)
    ensures Replay(c, requests).0.NoBucket? <==> Replay(c, requests).1 == []
    decreases requests
  {
    if requests != [] {
      var n := |requests| - 1;
      FrontInOrder(requests, n);
      FrontAnswered(c, requests, answers, n);
      EntriesAligned(c, requests[..n], answers[..n], if i < n then i else n);
      ReplayLast(c, requests);
      AlignedStep(c, requests, answers, n, i);
    }
  }

  lemma AlignedStep(c: Config, requests: seq<Request>, answers: seq<bool>, n: nat, i: nat)
    requires c.window > 0.0 && n + 1 == |requests| && i <= n + 1 && Answered(c, requests, answers)
    requires requests[n].asked <= requests[n].marked
    requires Replay(c, requests[..n]).0.NoBucket? <==> Replay(c, requests[..n]).1 == []
    requires Aligned(requests[..n], answers[..n], Replay(c, requests[..n]).1, if i < n then i else n)
    ensures Aligned(requests, answers, Replay(c, requests).1, i)
    ensures Replay(c, requests).0.NoBucket? <==> Replay(c, requests).1 == []
  {
    var (level, entries) := Replay(c, requests[..n]);
    var more := Replay(c, requests).1;
    ReplayLast(c, requests);
    assert answers[n] == Serve(c, level, requests[n]).1;
    if more != [] {
      assert more == entries + [more[|more| - 1]];
      GrantedMore(entries, more[|more| - 1], if i <= n && i >= n - |entries| then i - (n - |entries|) else 0);
    }
  }

  /** `n` tokens in `elapsed` seconds: the burst, and what comes back meanwhile. */
  ghost predicate WithinRate(c: Config, n: int, elapsed: real) {
    (n - c.burst) as real * c.window <= c.rate as real * elapsed
  }

  /** `n` more tokens at `now` keep within the rate since request `i`. */
  ghost predicate FitsSince(c: Config, requests: seq<Request>, answers: seq<bool>, i: nat, n: int, now: real)
    requires |answers| == |requests| && i < |requests|
  {
    WithinRate(c, Granted(requests, answers, i) + n, now - requests[i].asked)
  }

  lemma WithinLonger(c: Config, n: int, a: real, b: real)
    requires c.Valid() && a <= b && WithinRate(c, n, a)
    ensures WithinRate(c, n, b)
  {
    Scale(c.rate as real, b - a);
    Split(c.rate as real, a, b - a);
  }

  lemma AffordableInTerms(c: Config, entries: seq<Entry>, j: nat, n: int, now: real)
    requires c.window > 0.0 && j < |entries|
    ensures Affordable(c, entries, j, n, now) <==> WithinRate(c, GrantedSince(entries, j) + n, now - entries[j].time)
  {
    var g, elapsed := GrantedSince(entries, j) + n, now - entries[j].time;
    var gain := c.Speed() * elapsed;
    assert Allowance(c, entries, j, now) == c.burst as real + gain;
    AboveBurst(g, c.burst, gain);
    GainInTerms(c, g, elapsed, gain);
  }

  lemma GainInTerms(c: Config, n: int, elapsed: real, gain: real)
    requires c.window > 0.0 && gain == c.Speed() * elapsed
    ensures (n - c.burst) as real <= gain <==> WithinRate(c, n, elapsed)
  {
    SpeedInTerms(c, (n - c.burst) as real, elapsed);
  }

  lemma AboveBurst(n: int, burst: int, gain: real)
    ensures n as real <= burst as real + gain <==> (n - burst) as real <= gain
  {
  }

  lemma OrderedTimes(requests: seq<Request>, i: nat, j: nat)
    requires InOrder(requests) && i <= j < |requests|
    ensures requests[i].asked <= requests[j].asked <= requests[j].marked <= requests[|requests| - 1].marked
  {
  }

  /** The rate limit: since any request no more has been granted than the burst and `rate` per window. */
  lemma RateLimit(c: Config, requests: seq<Request>, answers: seq<bool>, i: nat)
    requires c.Valid() && InOrder(requests) && Answered(c, requests, answers) && i < |requests|
    ensures
      var granted := Granted(requests, answers, i);
      granted == 0 || WithinRate(c, granted, requests[|requests| - 1].marked - requests[i].asked)
  {
    var entries := Replay(c, requests).1;
    EntriesAligned(c, requests, answers, i);
    ReplayIsSound(c, requests);
    if entries != [] {
      var created := |requests| - |entries|;
      RateLimitAt(c, requests, answers, i, if i < created then 0 else i - created);
    }
  }

  lemma RateLimitAt(c: Config, requests: seq<Request>, answers: seq<bool>, i: nat, j: nat)
    requires c.Valid() && InOrder(requests) && Answered(c, requests, answers) && i < |requests|
    requires
      var entries := Replay(c, requests).1;
      j < |entries| && j == if i < |requests| - |entries| then 0 else i - (|requests| - |entries|)
    ensures WithinRate(c, Granted(requests, answers, i), requests[|requests| - 1].marked - requests[i].asked)
  {
    var (level, entries) := Replay(c, requests);
    var created := |requests| - |entries|;
    GrantsAreBounded(c, requests, j);
    AffordableInTerms(c, entries, j, 0, LastTime(entries));
    EntriesAligned(c, requests, answers, i);
    EntriesAligned(c, requests, answers, created + j);
    EntriesAligned(c, requests, answers, |requests| - 1);
    OrderedTimes(requests, i, created + j);
    WithinLonger(c, GrantedSince(entries, j), LastTime(entries) - entries[j].time,
                 requests[|requests| - 1].marked - requests[i].asked);
  }

  /** In particular no more than burst and rate together over any one window. */
  lemma GrantedPerWindow(c: Config, requests: seq<Request>, answers: seq<bool>, i: nat)
    requires c.Valid() && InOrder(requests) && Answered(c, requests, answers) && i < |requests|
    requires requests[|requests| - 1].marked - requests[i].asked <= c.window
    ensures Granted(requests, answers, i) == 0 || Granted(requests, answers, i) <= c.burst + c.rate
  {
    RateLimit(c, requests, answers, i);
    if Granted(requests, answers, i) != 0 {
      WithinLonger(c, Granted(requests, answers, i), requests[|requests| - 1].marked - requests[i].asked, c.window);
      OneWindow(c, Granted(requests, answers, i));
    }
  }

  lemma OneWindow(c: Config, n: int)
    requires c.window > 0.0 && WithinRate(c, n, c.window)
    ensures n <= c.burst + c.rate
  {
    TimesWindow((n - c.burst) as real, c.rate as real, c.window);
  }

  /** The whole behaviour of a key in closed form, with no running level: a request is admitted exactly if
      it fits the burst and, together with what was granted since any earlier request, the rate. */
  lemma AnsweredExactly(c: Config, requests: seq<Request>, answers: seq<bool>, r: Request)
    requires c.Valid() && InOrder(requests + [r]) && OneReading(requests + [r]) && Answered(c, requests, answers)
    ensures Serve(c, Replay(c, requests).0, r).1 <==>
      r.n <= c.burst && forall i: nat :: i < |requests| ==> FitsSince(c, requests, answers, i, r.n, r.asked)
  {
    var all := requests + [r];
    assert all[..|requests|] == requests && all[|requests|] == r;
    FrontInOrder(all, |requests|);
    assert forall i :: 0 <= i < |requests| ==> all[i] == requests[i];
    EntriesAligned(c, requests, answers, |requests|);
    if Replay(c, requests).0.Level? {
      AdmittedExactly(c, requests, r);
      SameBounds(c, requests, answers, r);
    } else if r.n <= c.burst {
      forall i: nat | i < |requests| ensures FitsSince(c, requests, answers, i, r.n, r.asked) {
        EntriesAligned(c, requests, answers, i);
        OrderedTimes(all, i, |requests|);
        AtMostBurst(c, r.n, r.asked - requests[i].asked);
      }
    }
  }

  lemma AtMostBurst(c: Config, n: int, elapsed: real)
    requires c.Valid() && n <= c.burst && elapsed >= 0.0
    ensures WithinRate(c, n, elapsed)
  {
    Scale(c.window, (c.burst - n) as real);
    assert WithinRate(c, n, 0.0);
    WithinLonger(c, n, 0.0, elapsed);
  }

  lemma SameBound(c: Config, requests: seq<Request>, answers: seq<bool>, r: Request, j: nat)
    requires c.Valid() && InOrder(requests) && OneReading(requests) && Answered(c, requests, answers)
    requires j < |Replay(c, requests).1|
    ensures
      var entries := Replay(c, requests).1;
      var created := |requests| - |entries|;
      created >= 0 && (Affordable(c, entries, j, r.n, r.asked) <==> FitsSince(c, requests, answers, created + j, r.n, r.asked))
  {
    var entries := Replay(c, requests).1;
    EntriesAligned(c, requests, answers, |requests|);
    EntriesAligned(c, requests, answers, |requests| - |entries| + j);
    AffordableInTerms(c, entries, j, r.n, r.asked);
  }

  /** Before the bucket was created nothing was granted, so those requests bound nothing more. */
  lemma EarlierBound(c: Config, requests: seq<Request>, answers: seq<bool>, r: Request, i: nat)
    requires c.Valid() && InOrder(requests) && Answered(c, requests, answers)
    requires i < |requests| - |Replay(c, requests).1| < |requests|
    requires FitsSince(c, requests, answers, |requests| - |Replay(c, requests).1|, r.n, r.asked)
    ensures FitsSince(c, requests, answers, i, r.n, r.asked)
  {
    var created := |requests| - |Replay(c, requests).1|;
    EntriesAligned(c, requests, answers, i);
    EntriesAligned(c, requests, answers, created);
    OrderedTimes(requests, i, created);
    WithinLonger(c, Granted(requests, answers, i) + r.n, r.asked - requests[created].asked, r.asked - requests[i].asked);
  }

  lemma SameBounds(c: Config, requests: seq<Request>, answers: seq<bool>, r: Request)
    requires c.Valid() && InOrder(requests) && OneReading(requests) && Answered(c, requests, answers)
    requires Replay(c, requests).0.Level?
    ensures
      var entries := Replay(c, requests).1;
      (forall j: nat :: j < |entries| ==> Affordable(c, entries, j, r.n, r.asked)) <==>
      forall i: nat :: i < |requests| ==> FitsSince(c, requests, answers, i, r.n, r.asked)
  {
    var entries := Replay(c, requests).1;
    EntriesAligned(c, requests, answers, |requests|);
    var created := |requests| - |entries|;
    if forall j: nat :: j < |entries| ==> Affordable(c, entries, j, r.n, r.asked) {
      forall i: nat | i < |requests| ensures FitsSince(c, requests, answers, i, r.n, r.asked) {
        SameBound(c, requests, answers, r, if i < created then 0 else i - created);
        if i < created {
          EarlierBound(c, requests, answers, r, i);
        }
      }
    } else {
      var j: nat :| j < |entries| && !Affordable(c, entries, j, r.n, r.asked);
      SameBound(c, requests, answers, r, j);
    }
  }
}
