/** A limiter in use: calls for many keys, interleaved in any way. Each key is served as if it had the
    limiter to itself, so what holds of the history of one key holds of the limiter. */
module LimiterRuns {
  import opened RateBounds
  import opened RateTerms
  import opened TokenBucket

  datatype Call = Call(key: string, request: Request)

  ghost function RequestsOf(calls: seq<Call>): (r: seq<Request>)
    ensures |r| == |calls| && forall i :: 0 <= i < |r| ==> r[i] == calls[i].request
  {
    seq(|calls|, i requires 0 <= i < |calls| => calls[i].request)
  }

  /** The requests for one key, in their order. */
  ghost function OfKey(calls: seq<Call>, key: string): seq<Request> {
    if calls == [] then []
    else
      var front, last := calls[..|calls| - 1], calls[|calls| - 1];
      OfKey(front, key) + if last.key == key then [last.request] else []
  }

  lemma OfKeyAppend(calls: seq<Call>, call: Call, key: string)
    ensures OfKey(calls + [call], key) == OfKey(calls, key) + if call.key == key then [call.request] else []
  {
    assert (calls + [call])[..|calls|] == calls;
  }

  /** Every key stands where its own requests alone would have brought it. */
  ghost predicate Stands(l: Limiter, past: seq<Call>)
    requires l.Config().Valid()
    reads l, l.buckets.Values
  {
    forall k {:trigger l.LevelOf(k)} :: l.LevelOf(k) == Replay(l.Config(), OfKey(past, k)).0
  }

  /** What the call's own history answers. */
  ghost predicate AnswersFor(c: Config, past: seq<Call>, call: Call, answer: bool)
    requires c.Valid()
  {
    answer == Serve(c, Replay(c, OfKey(past, call.key)).0, call.request).1
  }

  method ServeOne(l: Limiter, ghost past: seq<Call>, call: Call) returns (allowed: bool)
    requires l.Valid() && Stands(l, past)
    modifies l, l.buckets.Values
    ensures l.Valid() && fresh(l.buckets.Values - old(l.buckets.Values))
    ensures Stands(l, past + [call]) && AnswersFor(l.Config(), past, call, allowed)
  {
    var r := call.request;
    assert l.LevelOf(call.key) == Replay(l.Config(), OfKey(past, call.key)).0;
    ReplayMore(l.Config(), OfKey(past, call.key), r);
    allowed := l.AllowN(call.key, r.n, r.asked, r.marked);
    assert (l.LevelOf(call.key), allowed) == Serve(l.Config(), old(l.LevelOf(call.key)), r);
    forall k ensures l.LevelOf(k) == Replay(l.Config(), OfKey(past + [call], k)).0 {
      OfKeyAppend(past, call, k);
      if k != call.key {
        assert OfKey(past + [call], k) == OfKey(past, k);
        assert l.LevelOf(k) == old(l.LevelOf(k)) == Replay(l.Config(), OfKey(past, k)).0;
      } else {
        assert OfKey(past + [call], k) == OfKey(past, k) + [r];
      }
    }
  }

  /** After any calls on a fresh limiter every key stands where its own requests alone would have brought
      it, and every answer is the one its own history gives: in closed form, and within the rate. */
  method ServeCalls(l: Limiter, calls: seq<Call>) returns (answers: seq<bool>)
    requires l.Valid() && l.buckets == map[]
    modifies l, l.buckets.Values
    ensures l.Valid() && Stands(l, calls) && AllAnswer(l.Config(), calls, answers)
    ensures InOrder(RequestsOf(calls)) ==> KeysWithinRate(l.Config(), calls, answers)
    ensures InOrder(RequestsOf(calls)) && OneReading(RequestsOf(calls)) ==> AnswersFit(l.Config(), calls, answers)
  {
    answers := ServeEach(l, calls);
    if InOrder(RequestsOf(calls)) {
      AnswersAreExact(l.Config(), calls, answers);
    }
  }

  method ServeEach(l: Limiter, calls: seq<Call>) returns (answers: seq<bool>)
    requires l.Valid() && l.buckets == map[]
    modifies l, l.buckets.Values
    ensures l.Valid() && Stands(l, calls) && AllAnswer(l.Config(), calls, answers)
  {
    answers := [];
    for i := 0 to |calls|
      invariant l.Valid() && fresh(l.buckets.Values)
      invariant Stands(l, calls[..i]) && AllAnswer(l.Config(), calls[..i], answers)
    {
      assert calls[..i + 1] == calls[..i] + [calls[i]];
      var allowed := ServeOne(l, calls[..i], calls[i]);
      OneMoreAnswer(l.Config(), calls[..i], answers, calls[i], allowed);
      answers := answers + [allowed];
    }
    assert calls[..|calls|] == calls;
  }

  lemma OneMoreAnswer(c: Config, calls: seq<Call>, answers: seq<bool>, call: Call, answer: bool)
    requires c.Valid() && AllAnswer(c, calls, answers) && AnswersFor(c, calls, call, answer)
    ensures AllAnswer(c, calls + [call], answers + [answer])
  {
    assert forall k :: 0 <= k <= |calls| ==> (calls + [call])[..k] == calls[..k];
    assert calls[..|calls|] == calls;
  }

  lemma ReplayMore(c: Config, requests: seq<Request>, r: Request)
    requires c.window > 0.0
    ensures Replay(c, requests + [r]).0 == Serve(c, Replay(c, requests).0, r).0
  {
    assert (requests + [r])[..|requests|] == requests;
  }

  lemma {:induction false} OfKeyAmong(calls: seq<Call>, key: string, r: Request) returns (i: nat)
    requires r in OfKey(calls, key)
    ensures i < |calls| && calls[i] == Call(key, r)
  {
    var front, last := calls[..|calls| - 1], calls[|calls| - 1];
    if last.key == key && last.request == r {
      i := |calls| - 1;
    } else {
      i := OfKeyAmong(front, key, r);
    }
  }

  lemma {:induction false} OfKeyInOrder(calls: seq<Call>, key: string)
    requires InOrder(RequestsOf(calls))
    ensures InOrder(OfKey(calls, key))
  {
    if calls != [] {
      var front, last := calls[..|calls| - 1], calls[|calls| - 1];
      assert forall i :: 0 <= i < |front| ==> RequestsOf(front)[i] == RequestsOf(calls)[i];
      OfKeyInOrder(front, key);
      if last.key == key {
        assert RequestsOf(calls)[|front|] == last.request;
        forall j | 0 <= j < |OfKey(front, key)| ensures OfKey(front, key)[j].marked <= last.request.asked {
          var i := OfKeyAmong(front, key, OfKey(front, key)[j]);
          assert RequestsOf(calls)[i] == OfKey(front, key)[j];
        }
      }
    }
  }

  /** The rate limit of each key of a limiter in use, whatever is asked for other keys meanwhile. */
  lemma EveryKeyIsBounded(c: Config, calls: seq<Call>, key: string, j: nat)
    requires c.Valid() && InOrder(RequestsOf(calls)) && OfKey(calls, key) != []
    requires j < |Replay(c, OfKey(calls, key)).1|
    ensures
      var entries := Replay(c, OfKey(calls, key)).1;
      entries != [] && GrantedSince(entries, j) as real <= Allowance(c, entries, j, LastTime(entries))
  {
    OfKeyInOrder(calls, key);
    GrantsAreBounded(c, OfKey(calls, key), j);
  }

  ghost predicate AllAnswer(c: Config, calls: seq<Call>, answers: seq<bool>)
    requires c.Valid()
  {
    && |answers| == |calls|
    && forall k {:trigger answers[k]} :: 0 <= k < |calls| ==> AnswersFor(c, calls[..k], calls[k], answers[k])
  }

  /** The answers to one key's requests, in their order. */
  ghost function AnswersTo(calls: seq<Call>, answers: seq<bool>, key: string): (r: seq<bool>)
    requires |answers| == |calls|
    ensures |r| == |OfKey(calls, key)|
  {
    if calls == [] then []
    else
      var n := |calls| - 1;
      AnswersTo(calls[..n], answers[..n], key) + if calls[n].key == key then [answers[n]] else []
  }

  /** The tokens granted to a key from call `from` on. */
  ghost function GrantedTo(calls: seq<Call>, answers: seq<bool>, key: string, from: nat): int
    requires |answers| == |calls| && from <= |calls|
  {
    var n := |calls| - 1;
    if from == |calls| then 0
    else
      GrantedTo(calls[..n], answers[..n], key, from)
      + if calls[n].key == key && answers[n] then calls[n].request.n else 0
  }

  lemma FrontAllAnswer(c: Config, calls: seq<Call>, answers: seq<bool>, n: nat)
    requires c.Valid() && AllAnswer(c, calls, answers) && n <= |calls|
    ensures AllAnswer(c, calls[..n], answers[..n])
  {
    forall k | 0 <= k < n ensures AnswersFor(c, calls[..n][..k], calls[..n][k], answers[..n][k]) {
      assert calls[..n][..k] == calls[..k];
    }
  }

  lemma AnsweredMore(c: Config, requests: seq<Request>, answers: seq<bool>, r: Request, answer: bool)
    requires c.window > 0.0 && Answered(c, requests, answers) && answer == Serve(c, Replay(c, requests).0, r).1
    ensures Answered(c, requests + [r], answers + [answer])
  {
    forall k | 0 <= k <= |requests|
      ensures (answers + [answer])[k] == Serve(c, Replay(c, (requests + [r])[..k]).0, (requests + [r])[k]).1
    {
      assert (requests + [r])[..k] == requests[..k];
      assert requests[..|requests|] == requests;
      if k < |requests| {
        assert answers[k] == Serve(c, Replay(c, requests[..k]).0, requests[k]).1;
      }
    }
  }

  /** The answers to one key's requests are what these requests alone would have been answered. */
  lemma {:induction false} KeyAnswered(c: Config, calls: seq<Call>, answers: seq<bool>, key: string, n: nat)
    requires c.Valid() && AllAnswer(c, calls, answers) && n <= |calls|
    ensures Answered(c, OfKey(calls[..n], key), AnswersTo(calls[..n], answers[..n], key))
  {
    if n > 0 {
      KeyAnswered(c, calls, answers, key, n - 1);
      assert AnswersFor(c, calls[..n - 1], calls[n - 1], answers[n - 1]);
      KeyAnsweredNext(c, calls[..n - 1], answers[..n - 1], calls[n - 1], answers[n - 1], key);
      assert calls[..n] == calls[..n - 1] + [calls[n - 1]] && answers[..n] == answers[..n - 1] + [answers[n - 1]];
    }
  }

  lemma WholeKeyAnswered(c: Config, calls: seq<Call>, answers: seq<bool>, key: string)
    requires c.Valid() && AllAnswer(c, calls, answers)
    ensures Answered(c, OfKey(calls, key), AnswersTo(calls, answers, key))
  {
    KeyAnswered(c, calls, answers, key, |calls|);
    assert calls[..|calls|] == calls && answers[..|calls|] == answers;
  }

  lemma KeyAnsweredNext(c: Config, calls: seq<Call>, answers: seq<bool>, call: Call, answer: bool, key: string)
    requires c.Valid() && |answers| == |calls| && AnswersFor(c, calls, call, answer)
    requires Answered(c, OfKey(calls, key), AnswersTo(calls, answers, key))
    ensures Answered(c, OfKey(calls + [call], key), AnswersTo(calls + [call], answers + [answer], key))
  {
    OfKeyAppend(calls, call, key);
    AnswersToAppend(calls, answers, call, answer, key);
    if call.key == key {
      AnsweredMore(c, OfKey(calls, key), AnswersTo(calls, answers, key), call.request, answer);
    } else {
      assert OfKey(calls + [call], key) == OfKey(calls, key);
      assert AnswersTo(calls + [call], answers + [answer], key) == AnswersTo(calls, answers, key);
    }
  }

  lemma AnswersToAppend(calls: seq<Call>, answers: seq<bool>, call: Call, answer: bool, key: string)
    requires |answers| == |calls|
    ensures AnswersTo(calls + [call], answers + [answer], key) ==
      AnswersTo(calls, answers, key) + if call.key == key then [answer] else []
  {
    assert (calls + [call])[..|calls|] == calls && (answers + [answer])[..|calls|] == answers;
  }

  lemma GrantedToAppend(calls: seq<Call>, answers: seq<bool>, call: Call, answer: bool, key: string, i: nat)
    requires |answers| == |calls| && i <= |calls|
    ensures GrantedTo(calls + [call], answers + [answer], key, i) ==
      GrantedTo(calls, answers, key, i) + if call.key == key && answer then call.request.n else 0
  {
    assert (calls + [call])[..|calls|] == calls && (answers + [answer])[..|calls|] == answers;
  }

  /** The position of a call among those for its key. */
  ghost function Position(calls: seq<Call>, key: string, i: nat): (p: nat)
    requires i <= |calls|
  {
    |OfKey(calls[..i], key)|
  }

  lemma GrantedMoreTo(requests: seq<Request>, answers: seq<bool>, r: Request, answer: bool, p: nat)
    requires |answers| == |requests| && p <= |requests|
    ensures Granted(requests + [r], answers + [answer], p) == Granted(requests, answers, p) + if answer then r.n else 0
  {
    assert (requests + [r])[..|requests|] == requests && (answers + [answer])[..|requests|] == answers;
  }

  lemma GrantedToKeyNext(calls: seq<Call>, answers: seq<bool>, call: Call, answer: bool, key: string, p: nat)
    requires |answers| == |calls| && p <= |OfKey(calls, key)|
    ensures p <= |OfKey(calls + [call], key)|
    ensures Granted(OfKey(calls + [call], key), AnswersTo(calls + [call], answers + [answer], key), p) ==
      Granted(OfKey(calls, key), AnswersTo(calls, answers, key), p) + if call.key == key && answer then call.request.n else 0
  {
    OfKeyAppend(calls, call, key);
    AnswersToAppend(calls, answers, call, answer, key);
    if call.key == key {
      GrantedMoreTo(OfKey(calls, key), AnswersTo(calls, answers, key), call.request, answer, p);
    } else {
      assert OfKey(calls + [call], key) == OfKey(calls, key);
      assert AnswersTo(calls + [call], answers + [answer], key) == AnswersTo(calls, answers, key);
    }
  }

  lemma {:induction false} GrantedToKey(calls: seq<Call>, answers: seq<bool>, key: string, i: nat)
    requires |answers| == |calls| && i <= |calls|
    ensures Position(calls, key, i) <= |OfKey(calls, key)|
    ensures GrantedTo(calls, answers, key, i) ==
      Granted(OfKey(calls, key), AnswersTo(calls, answers, key), Position(calls, key, i))
    decreases calls
  {
    if i == |calls| {
      assert calls[..i] == calls;
    } else {
      var n := |calls| - 1;
      assert calls[..n][..i] == calls[..i];
      assert calls == calls[..n] + [calls[n]] && answers == answers[..n] + [answers[n]];
      GrantedToKey(calls[..n], answers[..n], key, i);
      GrantedToAppend(calls[..n], answers[..n], calls[n], answers[n], key, i);
      GrantedToKeyNext(calls[..n], answers[..n], calls[n], answers[n], key, Position(calls, key, i));
    }
  }

  lemma {:induction false} RequestAt(calls: seq<Call>, key: string, i: nat)
    requires i < |calls| && calls[i].key == key
    ensures Position(calls, key, i) < |OfKey(calls, key)|
    ensures OfKey(calls, key)[Position(calls, key, i)] == calls[i].request
    decreases calls
  {
    var n := |calls| - 1;
    if i < n {
      assert calls[..n][..i] == calls[..i];
      RequestAt(calls[..n], key, i);
    }
  }

  lemma {:induction false} CallAt(calls: seq<Call>, key: string, p: nat) returns (i: nat)
    requires p < |OfKey(calls, key)|
    ensures i < |calls| && calls[i].key == key && Position(calls, key, i) == p
    decreases calls
  {
    var n := |calls| - 1;
    if p < |OfKey(calls[..n], key)| {
      i := CallAt(calls[..n], key, p);
      assert calls[..n][..i] == calls[..i];
    } else {
      i := n;
    }
  }

  lemma LastOfKey(calls: seq<Call>, key: string)
    requires InOrder(RequestsOf(calls)) && OfKey(calls, key) != []
    ensures
      var requests := OfKey(calls, key);
      calls != [] && requests[|requests| - 1].marked <= calls[|calls| - 1].request.marked
  {
    var requests := OfKey(calls, key);
    var i := OfKeyAmong(calls, key, requests[|requests| - 1]);
    assert RequestsOf(calls)[i] == calls[i].request && RequestsOf(calls)[|calls| - 1] == calls[|calls| - 1].request;
  }

  ghost predicate WithinSince(c: Config, calls: seq<Call>, answers: seq<bool>, i: nat)
    requires |answers| == |calls| && i < |calls|
  {
    GrantsFit(c, GrantedTo(calls, answers, calls[i].key, i), calls[i].request.asked, calls[|calls| - 1].request.marked)
  }

  ghost predicate GrantsFit(c: Config, granted: int, from: real, to: real) {
    granted == 0 || WithinRate(c, granted, to - from)
  }

  /** The rate limit as the callers see it: since any call for a key no more has been granted to it than the
      burst and `rate` per window, whatever was asked for other keys meanwhile. */
  lemma KeyWithinRate(c: Config, calls: seq<Call>, answers: seq<bool>, i: nat)
    requires c.Valid() && InOrder(RequestsOf(calls)) && AllAnswer(c, calls, answers) && i < |calls|
    ensures WithinSince(c, calls, answers, i)
  {
    KeyHistory(c, calls, answers, i);
    HistoryWithinRate(c, OfKey(calls, calls[i].key), AnswersTo(calls, answers, calls[i].key), Position(calls, calls[i].key, i),
                      calls[i].request.asked, calls[|calls| - 1].request.marked, GrantedTo(calls, answers, calls[i].key, i));
  }

  /** The history of one key, seen from request `p` of it. */
  ghost predicate History(
    c: Config, requests: seq<Request>, answers: seq<bool>, p: nat, asked: real, later: real, granted: int)
    requires c.window > 0.0
  {
    && InOrder(requests) && Answered(c, requests, answers)
    && p < |requests| && requests[p].asked == asked && requests[|requests| - 1].marked <= later
    && granted == Granted(requests, answers, p)
  }

  lemma KeyPlace(calls: seq<Call>, answers: seq<bool>, i: nat)
    requires InOrder(RequestsOf(calls)) && |answers| == |calls| && i < |calls|
    ensures
      var (key, requests) := (calls[i].key, OfKey(calls, calls[i].key));
      var p := Position(calls, key, i);
      && p < |requests| && requests[p].asked == calls[i].request.asked
      && requests[|requests| - 1].marked <= calls[|calls| - 1].request.marked
      && GrantedTo(calls, answers, key, i) == Granted(requests, AnswersTo(calls, answers, key), p)
  {
    RequestAt(calls, calls[i].key, i);
    LastOfKey(calls, calls[i].key);
    GrantedToKey(calls, answers, calls[i].key, i);
  }

  lemma KeyHistory(c: Config, calls: seq<Call>, answers: seq<bool>, i: nat)
    requires c.Valid() && InOrder(RequestsOf(calls)) && AllAnswer(c, calls, answers) && i < |calls|
    ensures
      var key := calls[i].key;
      History(c, OfKey(calls, key), AnswersTo(calls, answers, key), Position(calls, key, i),
              calls[i].request.asked, calls[|calls| - 1].request.marked, GrantedTo(calls, answers, key, i))
  {
    KeyPlace(calls, answers, i);
    WholeKeyAnswered(c, calls, answers, calls[i].key);
    OfKeyInOrder(calls, calls[i].key);
  }

  lemma HistoryWithinRate(
    c: Config, requests: seq<Request>, answers: seq<bool>, p: nat, asked: real, later: real, granted: int)
    requires c.Valid() && History(c, requests, answers, p, asked, later, granted)
    ensures GrantsFit(c, granted, asked, later)
  {
    RateLimit(c, requests, answers, p);
    if granted != 0 {
      WithinLonger(c, granted, requests[|requests| - 1].marked - asked, later - asked);
    }
  }

  /** `call` fits the burst and, with what its key was granted since any earlier call for it, the rate. */
  ghost predicate Fits(c: Config, past: seq<Call>, answers: seq<bool>, call: Call)
    requires |answers| == |past|
  {
    && call.request.n <= c.burst
    && forall i: nat :: i < |past| && past[i].key == call.key ==> FitsAfter(c, past, answers, call, i)
  }

  ghost predicate FitsAfter(c: Config, past: seq<Call>, answers: seq<bool>, call: Call, i: nat)
    requires |answers| == |past| && i < |past|
  {
    WithinRate(c, GrantedTo(past, answers, call.key, i) + call.request.n, call.request.asked - past[i].request.asked)
  }

  lemma OfKeyReadsOnce(calls: seq<Call>, key: string)
    requires OneReading(RequestsOf(calls))
    ensures OneReading(OfKey(calls, key))
  {
    var requests := OfKey(calls, key);
    forall j | 0 <= j < |requests| ensures requests[j].asked == requests[j].marked {
      var i := OfKeyAmong(calls, key, requests[j]);
      assert RequestsOf(calls)[i] == requests[j];
    }
  }

  lemma SameFits(c: Config, past: seq<Call>, answers: seq<bool>, call: Call, i: nat)
    requires |answers| == |past| && i < |past| && past[i].key == call.key
    ensures
      var p := Position(past, call.key, i);
      && p < |OfKey(past, call.key)|
      && (FitsAfter(c, past, answers, call, i) <==> FitsSince(
            c, OfKey(past, call.key), AnswersTo(past, answers, call.key), p, call.request.n, call.request.asked))
  {
    GrantedToKey(past, answers, call.key, i);
    RequestAt(past, call.key, i);
  }

  lemma AnswerByRequests(c: Config, past: seq<Call>, answers: seq<bool>, call: Call)
    requires c.Valid() && AllAnswer(c, past, answers)
    requires InOrder(RequestsOf(past + [call])) && OneReading(RequestsOf(past + [call]))
    ensures
      var (requests, theirs, r) := (OfKey(past, call.key), AnswersTo(past, answers, call.key), call.request);
      Serve(c, Replay(c, requests).0, r).1 <==>
        r.n <= c.burst && forall p: nat :: p < |requests| ==> FitsSince(c, requests, theirs, p, r.n, r.asked)
  {
    OfKeyAppend(past, call, call.key);
    OfKeyInOrder(past + [call], call.key);
    OfKeyReadsOnce(past + [call], call.key);
    WholeKeyAnswered(c, past, answers, call.key);
    AnsweredExactly(c, OfKey(past, call.key), AnswersTo(past, answers, call.key), call.request);
  }

  lemma FitsByRequests(c: Config, past: seq<Call>, answers: seq<bool>, call: Call)
    requires |answers| == |past|
    ensures
      var (requests, theirs, r) := (OfKey(past, call.key), AnswersTo(past, answers, call.key), call.request);
      Fits(c, past, answers, call) <==>
        r.n <= c.burst && forall p: nat :: p < |requests| ==> FitsSince(c, requests, theirs, p, r.n, r.asked)
  {
    var (requests, theirs, r) := (OfKey(past, call.key), AnswersTo(past, answers, call.key), call.request);
    forall i: nat | i < |past| && past[i].key == call.key
      ensures Position(past, call.key, i) < |requests|
      ensures FitsAfter(c, past, answers, call, i) <==>
        FitsSince(c, requests, theirs, Position(past, call.key, i), r.n, r.asked)
    {
      SameFits(c, past, answers, call, i);
    }
    if Fits(c, past, answers, call) {
      forall p: nat | p < |requests| ensures FitsSince(c, requests, theirs, p, r.n, r.asked) {
        var i := CallAt(past, call.key, p);
        assert FitsAfter(c, past, answers, call, i);
      }
    }
  }

  /** The limiter in closed form: a call is admitted exactly if it fits, in terms of earlier answers only. */
  lemma AnswerIsExact(c: Config, past: seq<Call>, answers: seq<bool>, call: Call)
    requires c.Valid() && AllAnswer(c, past, answers)
    requires InOrder(RequestsOf(past + [call])) && OneReading(RequestsOf(past + [call]))
    ensures Serve(c, Replay(c, OfKey(past, call.key)).0, call.request).1 <==> Fits(c, past, answers, call)
  {
    AnswerByRequests(c, past, answers, call);
    FitsByRequests(c, past, answers, call);
  }

  /** Every answer of a limiter in use is the closed form of its call. */
  ghost predicate AnswersFit(c: Config, calls: seq<Call>, answers: seq<bool>) {
    && |answers| == |calls|
    && forall k {:trigger answers[k]} :: 0 <= k < |calls| ==> answers[k] == Fits(c, calls[..k], answers[..k], calls[k])
  }

  ghost predicate KeysWithinRate(c: Config, calls: seq<Call>, answers: seq<bool>) {
    && |answers| == |calls|
    && forall i :: 0 <= i < |calls| ==> WithinSince(c, calls, answers, i)
  }

  lemma AnswersAreExact(c: Config, calls: seq<Call>, answers: seq<bool>)
    requires c.Valid() && AllAnswer(c, calls, answers) && InOrder(RequestsOf(calls))
    ensures KeysWithinRate(c, calls, answers)
    ensures OneReading(RequestsOf(calls)) ==> AnswersFit(c, calls, answers)
  {
    forall i | 0 <= i < |calls| ensures WithinSince(c, calls, answers, i) {
      KeyWithinRate(c, calls, answers, i);
    }
    if OneReading(RequestsOf(calls)) {
      forall k | 0 <= k < |calls| ensures answers[k] == Fits(c, calls[..k], answers[..k], calls[k]) {
        AnswerAtIsExact(c, calls, answers, k);
      }
    }
  }

  lemma AnswerAtIsExact(c: Config, calls: seq<Call>, answers: seq<bool>, k: nat)
    requires c.Valid() && AllAnswer(c, calls, answers) && k < |calls|
    requires InOrder(RequestsOf(calls)) && OneReading(RequestsOf(calls))
    ensures answers[k] == Fits(c, calls[..k], answers[..k], calls[k])
  {
    FrontAllAnswer(c, calls, answers, k);
    var first, all := RequestsOf(calls[..k] + [calls[k]]), RequestsOf(calls);
    assert forall i :: 0 <= i < |first| ==> first[i] == all[i];
    AnswerIsExact(c, calls[..k], answers[..k], calls[k]);
    assert AnswersFor(c, calls[..k], calls[k], answers[k]);
  }
}
