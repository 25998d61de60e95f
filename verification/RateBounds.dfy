/** What a token bucket admits over whole histories of requests, in real arithmetic. */
module RateBounds {

  /** `rate` tokens per `window` seconds, at most `burst` at a time. */
  datatype Config = Config(rate: int, window: real, burst: int) {
    predicate Valid() { rate >= 0 && window > 0.0 }

    /** Tokens per second. */
    function Speed(): real
      requires window > 0.0
    {
      rate as real / window
    }
  }

  datatype Level = NoBucket | Level(tokens: real, lastRefill: real)

  /** A request for `n` tokens; the limiter reads the clock for the elapsed time at `asked` and once
      more for the refill mark at `marked`. A request that creates a bucket only reads it at `marked`. */
  datatype Request = Request(n: int, asked: real, marked: real)

  function Min(a: real, b: real): real { if a < b then a else b }

  function Refilled(c: Config, tokens: real, elapsed: real): real
    requires c.window > 0.0
  {
    Min(tokens + c.Speed() * elapsed, c.burst as real)
  }

  /** The level after a request, and whether the request was admitted. */
  function Serve(c: Config, level: Level, r: Request): (Level, bool)
    requires c.window > 0.0
  {
    match level
    case NoBucket =>
      if r.n <= c.burst then (Level((c.burst - r.n) as real, r.marked), true) else (NoBucket, false)
    case Level(tokens, lastRefill) =>
      var refilled := Refilled(c, tokens, r.asked - lastRefill);
      if r.n as real <= refilled then (Level(refilled - r.n as real, r.marked), true)
      else (Level(refilled, r.marked), false)
  }

  /** One request since the bucket was created, and what it was granted. */
  datatype Entry = Entry(time: real, granted: int)

  /** The level after a history of requests, and the entries since the bucket was created. */
  function Replay(c: Config, requests: seq<Request>): (Level, seq<Entry>)
    requires c.window > 0.0
  {
    if requests == [] then (NoBucket, [])
    else
      var r := requests[|requests| - 1];
      var (level, entries) := Replay(c, requests[..|requests| - 1]);
      var (next, ok) := Serve(c, level, r);
      (next, if next.NoBucket? then []
             else entries + [Entry(if level.NoBucket? then r.marked else r.asked, if ok then r.n else 0)])
  }

  /** The clock never runs backwards, and nobody asks for a negative number of tokens. */
  ghost predicate InOrder(requests: seq<Request>) {
    && (forall i {:trigger requests[i].asked} {:trigger requests[i].marked} {:trigger requests[i].n} ::
          0 <= i < |requests| ==> requests[i].asked <= requests[i].marked && requests[i].n >= 0)
    && forall i, j {:trigger requests[i].marked, requests[j].asked} ::
          0 <= i < j < |requests| ==> requests[i].marked <= requests[j].asked
  }

  /** Both clock readings of every request agree. */
  ghost predicate OneReading(requests: seq<Request>) {
    forall i :: 0 <= i < |requests| ==> requests[i].asked == requests[i].marked
  }

  lemma FrontInOrder(requests: seq<Request>, n: nat)
    requires InOrder(requests) && n + 1 == |requests|
    ensures InOrder(requests[..n]) && requests[n].n >= 0 && requests[n].asked <= requests[n].marked
    ensures n > 0 ==> requests[..n][n - 1].marked <= requests[n].asked
    ensures OneReading(requests) ==> OneReading(requests[..n]) && requests[n].asked == requests[n].marked
  {
  }

  /** A history is its front and the last request. */
  lemma ReplayLast(c: Config, requests: seq<Request>)
    requires c.window > 0.0 && requests != []
    ensures
      var r := requests[|requests| - 1];
      var (level, entries) := Replay(c, requests[..|requests| - 1]);
      var (next, ok) := Serve(c, level, r);
      && Replay(c, requests).0 == next
      && (level.Level? ==> Replay(c, requests).1 == entries + [Entry(r.asked, if ok then r.n else 0)])
      && (level.NoBucket? && r.n <= c.burst ==> Replay(c, requests).1 == [Entry(r.marked, r.n)])
      && (level.NoBucket? && r.n > c.burst ==> next == NoBucket && Replay(c, requests).1 == [])
  {
    if Replay(c, requests[..|requests| - 1]).0.NoBucket? {
      NoEntries(c, requests[..|requests| - 1]);
    }
  }

  lemma NoEntries(c: Config, requests: seq<Request>)
    requires c.window > 0.0 && Replay(c, requests).0.NoBucket?
    ensures Replay(c, requests).1 == []
  {
  }

  /** The tokens granted by the entries from `j` on. */
  function GrantedSince(entries: seq<Entry>, j: nat): int
    requires j <= |entries|
  {
    if j == |entries| then 0 else GrantedSince(entries[..|entries| - 1], j) + entries[|entries| - 1].granted
  }

  /** What may have been granted at most between entry `j` and `time`, the burst included. */
  function Allowance(c: Config, entries: seq<Entry>, j: nat, time: real): real
    requires c.window > 0.0 && j < |entries|
  {
    c.burst as real + c.Speed() * (time - entries[j].time)
  }

  lemma SpeedNonNegative(c: Config)
    requires c.Valid()
    ensures c.Speed() >= 0.0
  {
  }

  lemma Split(v: real, a: real, b: real)
    ensures v * (a + b) == v * a + v * b
  {
  }

  lemma Scale(v: real, a: real)
    requires v >= 0.0 && a >= 0.0
    ensures v * a >= 0.0
    ensures v > 0.0 && a > 0.0 ==> v * a > 0.0
  {
  }

  /** What the entries since `j` and the level say about each other. */
  ghost predicate Bounded(c: Config, level: Level, entries: seq<Entry>, j: nat, time: real)
    requires c.window > 0.0 && j < |entries|
  {
    level.Level? && level.tokens + GrantedSince(entries, j) as real <= Allowance(c, entries, j, time)
  }

  lemma SpeedOver(v: real, at: real, time: real, last: real, asked: real)
    requires v >= 0.0 && time <= last
    ensures v * (asked - at) >= v * (time - at) + v * (asked - last)
  {
    Scale(v, last - time);
    assert v * (asked - at) == v * asked - v * at;
    assert v * (time - at) == v * time - v * at;
    assert v * (asked - last) == v * asked - v * last;
    assert v * (last - time) == v * last - v * time;
  }

  lemma GrantedMore(entries: seq<Entry>, e: Entry, j: nat)
    requires j <= |entries|
    ensures GrantedSince(entries + [e], j) == GrantedSince(entries, j) + e.granted
  {
    assert (entries + [e])[..|entries|] == entries;
  }

  /** One more entry: the bounds of the earlier entries move with the time between them. */
  lemma ExtendsBound(c: Config, level: Level, entries: seq<Entry>, r: Request, j: nat, time: real)
    requires c.Valid() && level.Level? && j < |entries| && r.n >= 0
    requires time <= level.lastRefill <= r.asked && Bounded(c, level, entries, j, time)
    ensures
      var (next, ok) := Serve(c, level, r);
      Bounded(c, next, entries + [Entry(r.asked, if ok then r.n else 0)], j, r.asked)
  {
    SpeedNonNegative(c);
    var (next, ok) := Serve(c, level, r);
    SpeedOver(c.Speed(), entries[j].time, time, level.lastRefill, r.asked);
    var granted := if ok then r.n else 0;
    var more := entries + [Entry(r.asked, granted)];
    GrantedMore(entries, Entry(r.asked, granted), j);
    assert next.tokens + granted as real == Refilled(c, level.tokens, r.asked - level.lastRefill);
    assert more[j] == entries[j];
    assert Allowance(c, more, j, r.asked) >= Allowance(c, entries, j, time) + c.Speed() * (r.asked - level.lastRefill);
    Carry(next.tokens, Refilled(c, level.tokens, r.asked - level.lastRefill), level.tokens,
          c.Speed() * (r.asked - level.lastRefill), GrantedSince(entries, j), granted,
          Allowance(c, more, j, r.asked), Allowance(c, entries, j, time));
  }

  lemma Carry(next: real, refilled: real, tokens: real, step: real, g: int, granted: int, now: real, then_: real)
    requires next + granted as real == refilled && refilled <= tokens + step
    requires tokens + g as real <= then_ && now >= then_ + step
    ensures next + (g + granted) as real <= now
  {
  }

  /** The state of a key whose bucket exists, after a request marked at `marked`. */
  ghost predicate Sound(c: Config, level: Level, entries: seq<Entry>, marked: real)
    requires c.window > 0.0
  {
    && c.burst >= 0 && level.Level? && level.tokens >= 0.0 && level.lastRefill == marked
    && entries != [] && LastTime(entries) <= marked
    && forall j: nat :: j < |entries| ==> Bounded(c, level, entries, j, LastTime(entries))
  }

  function LastTime(entries: seq<Entry>): real
    requires entries != []
  {
    entries[|entries| - 1].time
  }

  lemma CreatedIsSound(c: Config, r: Request)
    requires c.Valid() && 0 <= r.n <= c.burst
    ensures Sound(c, Level((c.burst - r.n) as real, r.marked), [Entry(r.marked, r.n)], r.marked)
  {
    var entries := [Entry(r.marked, r.n)];
    assert GrantedSince(entries, 0) == r.n by {
      assert entries[..0] == [];
    }
    assert c.Speed() * 0.0 == 0.0;
  }

  lemma ServedIsSound(c: Config, level: Level, entries: seq<Entry>, r: Request)
    requires c.Valid() && level.Level? && Sound(c, level, entries, level.lastRefill)
    requires r.n >= 0 && level.lastRefill <= r.asked <= r.marked
    ensures
      var (next, ok) := Serve(c, level, r);
      Sound(c, next, entries + [Entry(r.asked, if ok then r.n else 0)], r.marked)
  {
    var (next, ok) := Serve(c, level, r);
    var more := entries + [Entry(r.asked, if ok then r.n else 0)];
    forall j: nat | j < |more| ensures Bounded(c, next, more, j, r.asked) {
      if j < |entries| {
        ExtendsBound(c, level, entries, r, j, LastTime(entries));
      } else {
        OwnBound(c, level, entries, r);
      }
    }
    RefillIsNatural(c, level.tokens, r.asked - level.lastRefill);
    assert LastTime(more) == r.asked;
  }

  lemma RefillIsNatural(c: Config, tokens: real, elapsed: real)
    requires c.Valid() && c.burst >= 0 && tokens >= 0.0 && elapsed >= 0.0
    ensures Refilled(c, tokens, elapsed) >= 0.0
  {
    SpeedNonNegative(c);
    Scale(c.Speed(), elapsed);
  }

  /** Over every stretch of a history the grants stay within the burst and what is refilled meanwhile,
      also when time passes between the two clock readings. */
  lemma {:induction false} ReplayIsSound(c: Config, requests: seq<Request>)
    requires c.Valid() && InOrder(requests) && requests != []
    ensures
      var (level, entries) := Replay(c, requests);
      if level.Level? then Sound(c, level, entries, requests[|requests| - 1].marked) else entries == []
  {
    var n := |requests| - 1;
    FrontInOrder(requests, n);
    if n > 0 {
      ReplayIsSound(c, requests[..n]);
    }
    var (level, entries) := Replay(c, requests[..n]);
    ReplayLast(c, requests);
    if level.Level? {
      assert n > 0;
      ServedIsSound(c, level, entries, requests[n]);
    } else if requests[n].n <= c.burst {
      CreatedIsSound(c, requests[n]);
    }
  }

  /** The rate limit itself: from any entry up to the last one no more than the burst and the refill
      of that time has been granted. */
  lemma GrantsAreBounded(c: Config, requests: seq<Request>, j: nat)
    requires c.Valid() && InOrder(requests) && requests != [] && j < |Replay(c, requests).1|
    ensures
      var entries := Replay(c, requests).1;
      entries != [] && GrantedSince(entries, j) as real <= Allowance(c, entries, j, LastTime(entries))
  {
    ReplayIsSound(c, requests);
    var (level, entries) := Replay(c, requests);
    FromSound(c, level, entries, requests[|requests| - 1].marked, j);
  }

  lemma FromSound(c: Config, level: Level, entries: seq<Entry>, marked: real, j: nat)
    requires c.window > 0.0 && Sound(c, level, entries, marked) && j < |entries|
    ensures GrantedSince(entries, j) as real <= Allowance(c, entries, j, LastTime(entries))
  {
    assert Bounded(c, level, entries, j, LastTime(entries));
  }

  lemma NoTimePassed(c: Config, entries: seq<Entry>, e: Entry)
    requires c.window > 0.0
    ensures Allowance(c, entries + [e], |entries|, e.time) == c.burst as real
  {
    var more := entries + [e];
    assert more[|entries|] == e;
    assert e.time - e.time == 0.0;
    TimesZero(c.Speed());
  }

  lemma TimesZero(v: real)
    ensures v * 0.0 == 0.0
  {
  }

  lemma GrantedLast(entries: seq<Entry>, e: Entry)
    ensures GrantedSince(entries + [e], |entries|) == e.granted
  {
    GrantedMore(entries, e, |entries|);
  }

  /** What is granted and what is left make up the refilled level, which is at most the burst. */
  lemma ServedSum(c: Config, level: Level, r: Request)
    requires c.window > 0.0 && level.Level?
    ensures
      var (next, ok) := Serve(c, level, r);
      && next.Level?
      && next.tokens + (if ok then r.n else 0) as real == Refilled(c, level.tokens, r.asked - level.lastRefill)
      && next.tokens + (if ok then r.n else 0) as real <= c.burst as real
  {
  }

  lemma FullSum(c: Config, level: Level, r: Request)
    requires c.window > 0.0 && level.Level?
    requires level.tokens + c.Speed() * (r.asked - level.lastRefill) >= c.burst as real
    ensures
      var (next, ok) := Serve(c, level, r);
      next.Level? && next.tokens + (if ok then r.n else 0) as real == c.burst as real
  {
    ServedSum(c, level, r);
  }

  lemma OwnBound(c: Config, level: Level, entries: seq<Entry>, r: Request)
    requires c.Valid() && level.Level? && r.n >= 0
    ensures
      var (next, ok) := Serve(c, level, r);
      Bounded(c, next, entries + [Entry(r.asked, if ok then r.n else 0)], |entries|, r.asked)
  {
    var (next, ok) := Serve(c, level, r);
    var e := Entry(r.asked, if ok then r.n else 0);
    ServedSum(c, level, r);
    GrantedLast(entries, e);
    NoTimePassed(c, entries, e);
  }

  /** The level is exactly what entry `j` leaves of its allowance. */
  ghost predicate Tight(c: Config, level: Level, entries: seq<Entry>, j: nat)
    requires c.window > 0.0 && j < |entries|
  {
    level.Level? && level.tokens + GrantedSince(entries, j) as real == Allowance(c, entries, j, LastTime(entries))
  }

  /** With one clock reading per request the level is the least that any entry leaves. */
  ghost predicate Exact(c: Config, level: Level, entries: seq<Entry>)
    requires c.window > 0.0
  {
    && level.Level? && Sound(c, level, entries, level.lastRefill) && LastTime(entries) == level.lastRefill
    && exists j: nat :: j < |entries| && Tight(c, level, entries, j)
  }

  lemma CreatedIsExact(c: Config, r: Request)
    requires c.Valid() && 0 <= r.n <= c.burst
    ensures Exact(c, Level((c.burst - r.n) as real, r.marked), [Entry(r.marked, r.n)])
  {
    CreatedIsSound(c, r);
    var entries := [Entry(r.marked, r.n)];
    assert entries[..0] == [] && GrantedSince(entries, 0) == r.n;
    assert c.Speed() * 0.0 == 0.0;
    assert Tight(c, Level((c.burst - r.n) as real, r.marked), entries, 0);
  }

  lemma StaysTight(c: Config, level: Level, entries: seq<Entry>, r: Request, j: nat)
    requires c.Valid() && Exact(c, level, entries) && j < |entries| && Tight(c, level, entries, j)
    requires level.lastRefill <= r.asked
    requires level.tokens + c.Speed() * (r.asked - level.lastRefill) < c.burst as real
    ensures
      var (next, ok) := Serve(c, level, r);
      Tight(c, next, entries + [Entry(r.asked, if ok then r.n else 0)], j)
  {
    var (next, ok) := Serve(c, level, r);
    var more := entries + [Entry(r.asked, if ok then r.n else 0)];
    assert more[..|entries|] == entries;
    Split(c.Speed(), level.lastRefill - entries[j].time, r.asked - level.lastRefill);
  }

  lemma FullIsTight(c: Config, level: Level, entries: seq<Entry>, r: Request)
    requires c.Valid() && level.Level?
    requires level.tokens + c.Speed() * (r.asked - level.lastRefill) >= c.burst as real
    ensures
      var (next, ok) := Serve(c, level, r);
      Tight(c, next, entries + [Entry(r.asked, if ok then r.n else 0)], |entries|)
  {
    var (next, ok) := Serve(c, level, r);
    var e := Entry(r.asked, if ok then r.n else 0);
    FullSum(c, level, r);
    GrantedLast(entries, e);
    NoTimePassed(c, entries, e);
    assert LastTime(entries + [e]) == r.asked;
  }

  lemma ServedIsExact(c: Config, level: Level, entries: seq<Entry>, r: Request)
    requires c.Valid() && Exact(c, level, entries)
    requires r.n >= 0 && level.lastRefill <= r.asked == r.marked
    ensures
      var (next, ok) := Serve(c, level, r);
      Exact(c, next, entries + [Entry(r.asked, if ok then r.n else 0)])
  {
    ServedIsSound(c, level, entries, r);
    if level.tokens + c.Speed() * (r.asked - level.lastRefill) < c.burst as real {
      var j: nat :| j < |entries| && Tight(c, level, entries, j);
      StaysTight(c, level, entries, r, j);
    } else {
      FullIsTight(c, level, entries, r);
    }
  }

  lemma ExactAfter(c: Config, requests: seq<Request>, n: nat, level: Level, entries: seq<Entry>)
    requires c.Valid() && n + 1 == |requests| && (level, entries) == Replay(c, requests[..n]) && level.Level?
    requires Exact(c, level, entries) && level.lastRefill <= requests[n].asked == requests[n].marked
    requires requests[n].n >= 0
    ensures
      var (next, more) := Replay(c, requests);
      Exact(c, next, more) && next.lastRefill == requests[n].marked
  {
    ReplayLast(c, requests);
    ServedIsExact(c, level, entries, requests[n]);
  }

  /** The request that finds no bucket. */
  lemma ReplayFirst(c: Config, requests: seq<Request>, n: nat)
    requires c.window > 0.0 && n + 1 == |requests| && Replay(c, requests[..n]).0.NoBucket?
    ensures Replay(c, requests) ==
      var r := requests[n];
      if r.n <= c.burst then (Level((c.burst - r.n) as real, r.marked), [Entry(r.marked, r.n)]) else (NoBucket, [])
  {
    ReplayLast(c, requests);
  }

  lemma ExactAtFirst(c: Config, requests: seq<Request>, n: nat)
    requires c.Valid() && n + 1 == |requests| && Replay(c, requests[..n]).0.NoBucket? && requests[n].n >= 0
    ensures
      var (next, more) := Replay(c, requests);
      next.Level? ==> Exact(c, next, more) && next.lastRefill == requests[n].marked
  {
    ReplayFirst(c, requests, n);
    if requests[n].n <= c.burst {
      CreatedIsExact(c, requests[n]);
    }
  }

  lemma {:induction false} ReplayIsExact(c: Config, requests: seq<Request>)
    requires c.Valid() && InOrder(requests) && OneReading(requests) && requests != []
    ensures
      var (level, entries) := Replay(c, requests);
      level.Level? ==> Exact(c, level, entries) && level.lastRefill == requests[|requests| - 1].marked
  {
    var n := |requests| - 1;
    FrontInOrder(requests, n);
    if n > 0 {
      ReplayIsExact(c, requests[..n]);
    }
    if Replay(c, requests[..n]).0.Level? {
      assert n > 0;
      ExactAfter(c, requests, n, Replay(c, requests[..n]).0, Replay(c, requests[..n]).1);
    } else {
      ExactAtFirst(c, requests, n);
    }
  }

  /** `n` more tokens at `now` keep within what is allowed since entry `j`. */
  ghost predicate Affordable(c: Config, entries: seq<Entry>, j: nat, n: int, now: real)
    requires c.window > 0.0 && j < |entries|
  {
    (GrantedSince(entries, j) + n) as real <= Allowance(c, entries, j, now)
  }

  /** The admit decision in closed form, without any running level: a request on an existing bucket is
      admitted exactly if it fits the burst and, for every request since the bucket was created, the
      grants since then and this one fit the burst and the refill of the time since. */
  lemma AdmittedExactly(c: Config, requests: seq<Request>, r: Request)
    requires c.Valid() && InOrder(requests + [r]) && OneReading(requests + [r])
    requires Replay(c, requests).0.Level?
    ensures
      var (level, entries) := Replay(c, requests);
      Serve(c, level, r).1 <==>
        r.n <= c.burst && forall j: nat :: j < |entries| ==> Affordable(c, entries, j, r.n, r.asked)
  {
    var all := requests + [r];
    var (level, entries) := Replay(c, requests);
    assert forall i :: 0 <= i < |requests| ==> requests[i] == all[i];
    assert r == all[|requests|];
    ReplayIsExact(c, requests);
    assert level.lastRefill == all[|requests| - 1].marked <= r.asked;
    AdmittedAt(c, level, entries, r);
  }

  lemma AdmittedAt(c: Config, level: Level, entries: seq<Entry>, r: Request)
    requires c.Valid() && Exact(c, level, entries) && level.lastRefill <= r.asked
    ensures Serve(c, level, r).1 <==>
      r.n <= c.burst && forall j: nat :: j < |entries| ==> Affordable(c, entries, j, r.n, r.asked)
  {
    var k: nat :| k < |entries| && Tight(c, level, entries, k);
    var elapsed := r.asked - level.lastRefill;
    Split(c.Speed(), level.lastRefill - entries[k].time, elapsed);
    forall j: nat | j < |entries|
      ensures level.tokens + c.Speed() * elapsed + GrantedSince(entries, j) as real <= Allowance(c, entries, j, r.asked)
    {
      assert Bounded(c, level, entries, j, LastTime(entries));
      Split(c.Speed(), level.lastRefill - entries[j].time, elapsed);
    }
    assert Affordable(c, entries, k, r.n, r.asked) <==> r.n as real <= level.tokens + c.Speed() * elapsed;
  }

  /** How long `tokens` take to become `needed` if nothing is taken: what a denied request is told to wait,
      and with the burst as `needed` the time until the bucket is full. */
  function WaitFor(c: Config, tokens: real, needed: int): real
    requires c.window > 0.0 && c.rate > 0
  {
    (needed as real - tokens) / c.Speed()
  }

  /** The wait is exact where it can be: asked again after `wait` with nothing in between, the request is
      admitted if and only if it fits the burst and has waited at least that long. */
  lemma RetryAfterIsExact(c: Config, level: Level, n: int, wait: real)
    requires c.Valid() && c.rate > 0 && level.Level? && wait >= 0.0
    ensures
      var at := level.lastRefill + wait;
      Serve(c, level, Request(n, at, at)).1 <==> n <= c.burst && WaitFor(c, level.tokens, n) <= wait
  {
    var v := c.Speed();
    var need := n as real - level.tokens;
    assert v > 0.0;
    Quotient(need, v, wait);
    assert level.lastRefill + wait - level.lastRefill == wait;
  }

  lemma Quotient(a: real, v: real, w: real)
    requires v > 0.0
    ensures a / v <= w <==> a <= v * w
  {
    var q := a / v;
    assert a == v * q;
    QuotientAt(v, q, w);
  }

  lemma QuotientAt(v: real, q: real, w: real)
    requires v > 0.0
    ensures q <= w <==> v * q <= v * w
  {
    var d := if q <= w then w - q else q - w;
    Scale(v, d);
    if q <= w {
      Split(v, q, d);
      assert q + d == w;
    } else {
      Split(v, w, d);
      assert w + d == q;
    }
  }

  lemma TimeToFullIsExact(c: Config, tokens: real, wait: real)
    requires c.Valid() && c.rate > 0 && tokens <= c.burst as real
    ensures Refilled(c, tokens, wait) == c.burst as real <==> WaitFor(c, tokens, c.burst) <= wait
  {
    Quotient(c.burst as real - tokens, c.Speed(), wait);
  }
}
