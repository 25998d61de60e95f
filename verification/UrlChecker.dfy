/** The worker pool of the URL checker as a step system: a feeder, a bounded job channel, workers that
    answer into a buffered result channel, cancellation, and the caller that waits for the workers. */
module UrlChecker {

  datatype Result = Result(url: string, statusCode: int, latencyMs: int, err: bool)

  /** Where a worker stands in its loop. */
  datatype Worker =
    | Receiving                 // at the head of the loop over the job channel
    | Holding(url: string)      // has a URL and is about to look at the context
    | Checking(url: string)     // is checking it
    | Answering(result: Result) // is about to send the result
    | Quit(failed: bool)        // has returned, with the context's error or with none

  datatype Caller = Waiting | Returned(out: seq<Result>, failed: bool)

  datatype State = State(
    fed: nat,              // how many URLs the feeder has sent
    closed: bool,          // whether it has closed the job channel
    jobs: seq<string>,     // the buffer of the job channel
    workers: seq<Worker>,
    results: seq<Result>,  // the buffer of the result channel
    cancelled: bool,       // whether the group's context is done
    interrupted: bool,     // whether the caller's context was cancelled from outside
    dropped: seq<string>,  // URLs received by workers that then saw the cancellation
    caller: Caller)

  datatype Step =
    | Feed | Close | Receive(w: nat) | Bail(w: nat) | Begin(w: nat) | Answer(w: nat, result: Result)
    | Send(w: nat) | Finish(w: nat) | Return | Interrupt

  function Start(pool: nat): State {
    State(0, false, [], seq(pool, _ => Receiving), [], false, false, [], Waiting)
  }

  predicate AllQuit(workers: seq<Worker>) {
    forall w :: 0 <= w < |workers| ==> workers[w].Quit?
  }

  predicate AnyFailed(workers: seq<Worker>) {
    exists w :: 0 <= w < |workers| && workers[w] == Quit(true)
  }

  /** Which steps the program can take; a channel operation that would block is not enabled. A select
      with a default branch takes the context's branch exactly if the context is done. */
  ghost predicate Enabled(urls: seq<string>, pool: nat, s: State, step: Step)
  {
    match step
    case Feed => !s.closed && s.fed < |urls| && |s.jobs| < pool
    case Close => !s.closed && (s.fed == |urls| || s.cancelled)
    case Receive(w) => w < |s.workers| && s.workers[w].Receiving? && s.jobs != []
    case Bail(w) => w < |s.workers| && s.workers[w].Holding? && s.cancelled
    case Begin(w) => w < |s.workers| && s.workers[w].Holding? && !s.cancelled
    case Answer(w, result) => w < |s.workers| && s.workers[w].Checking? && result.url == s.workers[w].url
    case Send(w) => w < |s.workers| && s.workers[w].Answering? && |s.results| < |urls|
    case Finish(w) => w < |s.workers| && s.workers[w].Receiving? && s.closed && s.jobs == []
    case Return => s.caller.Waiting? && AllQuit(s.workers)
    case Interrupt => !s.interrupted
  }

  function Put(s: State, w: nat, worker: Worker): State
    requires w < |s.workers|
  {
    s.(workers := s.workers[w := worker])
  }

  ghost function Apply(urls: seq<string>, pool: nat, s: State, step: Step): State
    requires Enabled(urls, pool, s, step)
  {
    match step
    case Feed => s.(fed := s.fed + 1, jobs := s.jobs + [urls[s.fed]])
    case Close => s.(closed := true)
    case Receive(w) => Put(s, w, Holding(s.jobs[0])).(jobs := s.jobs[1..])
    case Bail(w) => Put(s, w, Quit(true)).(dropped := s.dropped + [s.workers[w].url])
    case Begin(w) => Put(s, w, Checking(s.workers[w].url))
    case Answer(w, result) => Put(s, w, Answering(result))
    case Send(w) => Put(s, w, Receiving).(results := s.results + [s.workers[w].result])
    case Finish(w) => Put(s, w, Quit(false))
    case Return => s.(caller := Returned(s.results, AnyFailed(s.workers)), cancelled := true)
    case Interrupt => s.(interrupted := true, cancelled := true)
  }

  /** The steps lead from `s` to `t`. */
  ghost predicate Run(urls: seq<string>, pool: nat, s: State, steps: seq<Step>, t: State)
    decreases steps
  {
    if steps == [] then s == t
    else Enabled(urls, pool, s, steps[0]) && Run(urls, pool, Apply(urls, pool, s, steps[0]), steps[1..], t)
  }

  function UrlsOf(results: seq<Result>): seq<string> {
    seq(|results|, i requires 0 <= i < |results| => results[i].url)
  }

  /** How often a list names `url`. */
  ghost function Count(list: seq<string>, url: string): nat {
    multiset(list)[url]
  }

  lemma CountAppend(list: seq<string>, x: string, url: string)
    ensures Count(list + [x], url) == Count(list, url) + if x == url then 1 else 0
  {
  }

  lemma CountRest(list: seq<string>, url: string)
    requires list != []
    ensures Count(list, url) == Count(list[1..], url) + if list[0] == url then 1 else 0
  {
    assert list == [list[0]] + list[1..];
  }

  /** The URL a worker has in hand. */
  predicate Has(worker: Worker, url: string) {
    match worker
    case Holding(u) => u == url
    case Checking(u) => u == url
    case Answering(result) => result.url == url
    case _ => false
  }

  predicate Busy(worker: Worker) { worker.Holding? || worker.Checking? || worker.Answering? }

  ghost function InFlight(workers: seq<Worker>, url: string): nat {
    if workers == [] then 0
    else InFlight(workers[..|workers| - 1], url) + if Has(workers[|workers| - 1], url) then 1 else 0
  }

  ghost function BusyCount(workers: seq<Worker>): nat {
    if workers == [] then 0 else BusyCount(workers[..|workers| - 1]) + if Busy(workers[|workers| - 1]) then 1 else 0
  }

  /** How many steps a worker can still take with the URL it has, and to quit. */
  function StepsLeft(worker: Worker): nat {
    match worker
    case Receiving => 1
    case Holding(_) => 4
    case Checking(_) => 3
    case Answering(_) => 2
    case Quit(_) => 0
  }

  function AllStepsLeft(workers: seq<Worker>): nat {
    if workers == [] then 0 else AllStepsLeft(workers[..|workers| - 1]) + StepsLeft(workers[|workers| - 1])
  }

  lemma {:induction false} PutInFlight(workers: seq<Worker>, w: nat, worker: Worker, url: string)
    requires w < |workers|
    ensures InFlight(workers[w := worker], url) + (if Has(workers[w], url) then 1 else 0)
         == InFlight(workers, url) + (if Has(worker, url) then 1 else 0)
    ensures BusyCount(workers[w := worker]) + (if Busy(workers[w]) then 1 else 0)
         == BusyCount(workers) + (if Busy(worker) then 1 else 0)
  {
    var last := |workers| - 1;
    var next := workers[w := worker];
    if w == last {
      assert next[..last] == workers[..last];
    } else {
      PutInFlight(workers[..last], w, worker, url);
      assert next[..last] == workers[..last][w := worker];
    }
  }

  lemma {:induction false} PutStepsLeft(workers: seq<Worker>, w: nat, worker: Worker)
    requires w < |workers|
    ensures AllStepsLeft(workers[w := worker]) == AllStepsLeft(workers) - StepsLeft(workers[w]) + StepsLeft(worker)
  {
    var last := |workers| - 1;
    var next := workers[w := worker];
    if w == last {
      assert next[..last] == workers[..last];
    } else {
      PutStepsLeft(workers[..last], w, worker);
      assert next[..last] == workers[..last][w := worker];
    }
  }

  /** Nothing is lost or invented: every URL is unfed, queued, in a worker's hand, dropped, or
      answered, as often as the input names it. */
  ghost predicate Conserved(urls: seq<string>, s: State) {
    && s.fed <= |urls|
    && s.fed == |s.jobs| + BusyCount(s.workers) + |s.dropped| + |s.results|
    && forall url :: ConservedFor(urls, s, url)
  }

  ghost predicate ConservedFor(urls: seq<string>, s: State, url: string)
    requires s.fed <= |urls|
  {
    Count(urls[s.fed..], url) + Count(s.jobs, url) + InFlight(s.workers, url)
      + Count(s.dropped, url) + Count(UrlsOf(s.results), url)
    == Count(urls, url)
  }

  ghost predicate Inv(urls: seq<string>, pool: nat, s: State) {
    Conserved(urls, s) && Flags(urls, pool, s)
  }

  ghost predicate Flags(urls: seq<string>, pool: nat, s: State) {
    && |s.jobs| <= pool && |s.workers| == pool
    // a worker quits without an error only at the end of a closed, empty channel
    && ((exists w :: 0 <= w < pool && s.workers[w] == Quit(false)) ==> s.closed && s.jobs == [])
    // dropping a URL is the same as failing
    && (AnyFailed(s.workers) <==> s.dropped != [])
    // the context is done only after an interrupt, a failure or the return
    && (s.cancelled ==> s.interrupted || s.caller.Returned?)
    && (s.interrupted ==> s.cancelled)
    && (s.dropped != [] ==> s.interrupted)
    && (s.caller.Returned? ==> AllQuit(s.workers) && s.cancelled && s.caller == Returned(s.results, AnyFailed(s.workers)))
    && (s.closed && s.fed < |urls| ==> s.cancelled)
    && (s.closed && s.fed < |urls| && s.caller.Waiting? ==> s.interrupted)
    && ((exists w :: 0 <= w < pool && s.workers[w] == Quit(false)) && s.fed < |urls| ==> s.interrupted)
  }

  lemma StartsInv(urls: seq<string>, pool: nat)
    ensures Inv(urls, pool, Start(pool))
  {
    assert urls[0..] == urls;
    var s := Start(pool);
    forall url ensures ConservedFor(urls, s, url) {
      NoneInFlight(s.workers, url);
    }
    NoneInFlight(s.workers, "");
  }

  lemma {:induction false} NoneInFlight(workers: seq<Worker>, url: string)
    requires forall w :: 0 <= w < |workers| ==> !Busy(workers[w])
    ensures InFlight(workers, url) == 0 && BusyCount(workers) == 0
  {
    if workers != [] {
      NoneInFlight(workers[..|workers| - 1], url);
    }
  }

  /** What a step puts into worker `w`. */
  ghost function Becomes(s: State, step: Step): Worker
    requires step.Receive? ==> s.jobs != []
    requires step.Begin? ==> step.w < |s.workers| && s.workers[step.w].Holding?
  {
    match step
    case Receive(w) => Holding(s.jobs[0])
    case Bail(w) => Quit(true)
    case Begin(w) => Checking(s.workers[w].url)
    case Answer(w, result) => Answering(result)
    case Send(w) => Receiving
    case _ => Quit(false)
  }

  predicate MovesWorker(step: Step) {
    !step.Feed? && !step.Close? && !step.Return? && !step.Interrupt?
  }

  lemma KeepsCounts(urls: seq<string>, pool: nat, s: State, step: Step)
    requires Conserved(urls, s) && Enabled(urls, pool, s, step)
    ensures
      var t := Apply(urls, pool, s, step);
      t.fed <= |urls| && t.fed == |t.jobs| + BusyCount(t.workers) + |t.dropped| + |t.results|
  {
    if MovesWorker(step) {
      PutInFlight(s.workers, step.w, Becomes(s, step), "");
    }
  }

  lemma RestAfter(urls: seq<string>, k: nat)
    requires k < |urls|
    ensures urls[k..][0] == urls[k] && urls[k..][1..] == urls[k + 1..]
  {
  }

  lemma FeedKeeps(urls: seq<string>, pool: nat, s: State, step: Step, url: string)
    requires Conserved(urls, s) && Enabled(urls, pool, s, step) && step.Feed?
    ensures Apply(urls, pool, s, step).fed <= |urls| && ConservedFor(urls, Apply(urls, pool, s, step), url)
  {
    assert ConservedFor(urls, s, url);
    RestAfter(urls, s.fed);
    CountRest(urls[s.fed..], url);
    CountAppend(s.jobs, urls[s.fed], url);
  }

  lemma ReceiveKeeps(urls: seq<string>, pool: nat, s: State, step: Step, url: string)
    requires Conserved(urls, s) && Enabled(urls, pool, s, step) && step.Receive?
    ensures Apply(urls, pool, s, step).fed <= |urls| && ConservedFor(urls, Apply(urls, pool, s, step), url)
  {
    assert ConservedFor(urls, s, url);
    PutInFlight(s.workers, step.w, Becomes(s, step), url);
    CountRest(s.jobs, url);
  }

  lemma BailKeeps(urls: seq<string>, pool: nat, s: State, step: Step, url: string)
    requires Conserved(urls, s) && Enabled(urls, pool, s, step) && step.Bail?
    ensures Apply(urls, pool, s, step).fed <= |urls| && ConservedFor(urls, Apply(urls, pool, s, step), url)
  {
    assert ConservedFor(urls, s, url);
    PutInFlight(s.workers, step.w, Becomes(s, step), url);
    CountAppend(s.dropped, s.workers[step.w].url, url);
  }

  lemma SendKeeps(urls: seq<string>, pool: nat, s: State, step: Step, url: string)
    requires Conserved(urls, s) && Enabled(urls, pool, s, step) && step.Send?
    ensures Apply(urls, pool, s, step).fed <= |urls| && ConservedFor(urls, Apply(urls, pool, s, step), url)
  {
    assert ConservedFor(urls, s, url);
    PutInFlight(s.workers, step.w, Becomes(s, step), url);
    var result := s.workers[step.w].result;
    assert UrlsOf(s.results + [result]) == UrlsOf(s.results) + [result.url];
    CountAppend(UrlsOf(s.results), result.url, url);
  }

  lemma OtherKeeps(urls: seq<string>, pool: nat, s: State, step: Step, url: string)
    requires Conserved(urls, s) && Enabled(urls, pool, s, step) && !step.Feed? && !step.Receive? && !step.Bail? && !step.Send?
    ensures Apply(urls, pool, s, step).fed <= |urls| && ConservedFor(urls, Apply(urls, pool, s, step), url)
  {
    assert ConservedFor(urls, s, url);
    if MovesWorker(step) {
      PutInFlight(s.workers, step.w, Becomes(s, step), url);
    }
  }

  lemma KeepsConservedFor(urls: seq<string>, pool: nat, s: State, step: Step, url: string)
    requires Conserved(urls, s) && Enabled(urls, pool, s, step)
    ensures Apply(urls, pool, s, step).fed <= |urls| && ConservedFor(urls, Apply(urls, pool, s, step), url)
  {
    match step
    case Feed => FeedKeeps(urls, pool, s, step, url);
    case Receive(_) => ReceiveKeeps(urls, pool, s, step, url);
    case Bail(_) => BailKeeps(urls, pool, s, step, url);
    case Send(_) => SendKeeps(urls, pool, s, step, url);
    case _ => OtherKeeps(urls, pool, s, step, url);
  }

  /** Every step of every interleaving keeps the invariant. */
  lemma KeepsInv(urls: seq<string>, pool: nat, s: State, step: Step)
    requires Inv(urls, pool, s) && Enabled(urls, pool, s, step)
    ensures Inv(urls, pool, Apply(urls, pool, s, step))
  {
    KeepsCounts(urls, pool, s, step);
    var t := Apply(urls, pool, s, step);
    forall url ensures ConservedFor(urls, t, url) {
      KeepsConservedFor(urls, pool, s, step, url);
    }
    KeepsFlags(urls, pool, s, step);
  }

  lemma KeepsFlags(urls: seq<string>, pool: nat, s: State, step: Step)
    requires Flags(urls, pool, s) && s.fed <= |urls| && Enabled(urls, pool, s, step)
    ensures Flags(urls, pool, Apply(urls, pool, s, step))
  {
    var t := Apply(urls, pool, s, step);
    if step.Bail? {
      assert t.workers[step.w] == Quit(true);
    }
    assert forall w :: 0 <= w < pool && s.workers[w] == Quit(true) ==> t.workers[w] == Quit(true);
  }

  lemma {:induction false} RunKeepsInv(urls: seq<string>, pool: nat, s: State, steps: seq<Step>, t: State)
    requires Inv(urls, pool, s) && Run(urls, pool, s, steps, t)
    ensures Inv(urls, pool, t)
    decreases steps
  {
    if steps != [] {
      KeepsInv(urls, pool, s, steps[0]);
      RunKeepsInv(urls, pool, Apply(urls, pool, s, steps[0]), steps[1..], t);
    }
  }

  lemma {:induction false} BusyIsCounted(workers: seq<Worker>, w: nat)
    requires w < |workers| && Busy(workers[w])
    ensures BusyCount(workers) >= 1
  {
    if w < |workers| - 1 {
      BusyIsCounted(workers[..|workers| - 1], w);
    }
  }

  /** The result channel always has room for a worker's answer. */
  lemma SendNeverBlocks(urls: seq<string>, pool: nat, s: State, w: nat)
    requires Inv(urls, pool, s) && w < pool && s.workers[w].Answering?
    ensures Enabled(urls, pool, s, Send(w))
  {
    BusyIsCounted(s.workers, w);
  }

  /** The step worker `w` or, where it waits for a job, the feeder can take. */
  ghost function Moves(urls: seq<string>, s: State, w: nat): Step
    requires w < |s.workers|
  {
    match s.workers[w]
    case Holding(_) => if s.cancelled then Bail(w) else Begin(w)
    case Checking(url) => Answer(w, Result(url, 200, 0, false))
    case Answering(_) => Send(w)
    case _ =>
      if s.jobs != [] then Receive(w)
      else if s.closed then Finish(w)
      else if s.fed == |urls| then Close
      else Feed
  }

  /** Until the caller returns, the program can take a step without outside help. */
  lemma NeverStuck(urls: seq<string>, pool: nat, s: State)
    requires Inv(urls, pool, s) && s.caller.Waiting?
    ensures exists step :: step != Interrupt && Enabled(urls, pool, s, step)
  {
    if AllQuit(s.workers) {
      assert Enabled(urls, pool, s, Return);
    } else {
      var w: nat :| w < pool && !s.workers[w].Quit?;
      if s.workers[w].Answering? {
        SendNeverBlocks(urls, pool, s, w);
      }
      assert Enabled(urls, pool, s, Moves(urls, s, w));
    }
  }

  ghost function Measure(urls: seq<string>, s: State): nat
    requires s.fed <= |urls|
  {
    5 * (|urls| - s.fed) + 4 * |s.jobs| + AllStepsLeft(s.workers)
      + (if s.closed then 0 else 1) + (if s.interrupted then 0 else 1) + (if s.caller.Waiting? then 1 else 0)
  }

  /** Every step, an interrupt included, brings the end nearer. */
  lemma StepsDecrease(urls: seq<string>, pool: nat, s: State, step: Step)
    requires s.fed <= |urls| && Enabled(urls, pool, s, step)
    ensures
      var t := Apply(urls, pool, s, step);
      t.fed <= |urls| && Measure(urls, t) < Measure(urls, s)
  {
    if MovesWorker(step) {
      PutStepsLeft(s.workers, step.w, Becomes(s, step));
    }
  }

  lemma {:induction false} RunIsShort(urls: seq<string>, pool: nat, s: State, steps: seq<Step>, t: State)
    requires Inv(urls, pool, s) && Run(urls, pool, s, steps, t)
    ensures t.fed <= |urls| && |steps| + Measure(urls, t) <= Measure(urls, s)
    decreases steps
  {
    if steps != [] {
      StepsDecrease(urls, pool, s, steps[0]);
      KeepsInv(urls, pool, s, steps[0]);
      RunIsShort(urls, pool, Apply(urls, pool, s, steps[0]), steps[1..], t);
    }
  }

  lemma {:induction false} StartStepsLeft(workers: seq<Worker>)
    requires forall w :: 0 <= w < |workers| ==> workers[w].Receiving?
    ensures AllStepsLeft(workers) == |workers|
  {
    if workers != [] {
      StartStepsLeft(workers[..|workers| - 1]);
    }
  }

  /** No interleaving has more than 5 steps per URL, one per worker and three more; and one that can
      take no further step has returned. */
  lemma EveryRunEnds(urls: seq<string>, pool: nat, steps: seq<Step>, t: State)
    requires Run(urls, pool, Start(pool), steps, t)
    ensures |steps| <= 5 * |urls| + pool + 3
    ensures (forall step :: step != Interrupt ==> !Enabled(urls, pool, t, step)) ==> t.caller.Returned? && t.closed
  {
    StartsInv(urls, pool);
    RunKeepsInv(urls, pool, Start(pool), steps, t);
    RunIsShort(urls, pool, Start(pool), steps, t);
    StartStepsLeft(Start(pool).workers);
    if t.caller.Waiting? {
      NeverStuck(urls, pool, t);
    }
    if !t.closed && t.caller.Returned? {
      assert Enabled(urls, pool, t, Close);
    }
  }

  lemma {:induction false} IdleInFlight(workers: seq<Worker>, url: string)
    requires AllQuit(workers)
    ensures InFlight(workers, url) == 0 && BusyCount(workers) == 0
  {
    if workers != [] {
      assert forall w :: 0 <= w < |workers| - 1 ==> workers[..|workers| - 1][w] == workers[w];
      IdleInFlight(workers[..|workers| - 1], url);
    }
  }

  /** What comes back never names a URL more often than the input does, and it covers the whole input
      exactly if it has as many entries. */
  lemma ReturnedResults(urls: seq<string>, pool: nat, s: State)
    requires Inv(urls, pool, s) && s.caller.Returned?
    ensures multiset(UrlsOf(s.caller.out)) <= multiset(urls)
    ensures multiset(UrlsOf(s.caller.out)) == multiset(urls) <==> |s.caller.out| == |urls|
    ensures s.caller.failed <==> s.dropped != []
  {
    var out := UrlsOf(s.caller.out);
    forall url ensures multiset(out)[url] <= multiset(urls)[url] {
      assert ConservedFor(urls, s, url);
    }
    IdleInFlight(s.workers, "");
    if |s.caller.out| == |urls| {
      forall url ensures multiset(out)[url] == multiset(urls)[url] {
        assert ConservedFor(urls, s, url);
        IdleInFlight(s.workers, url);
        assert urls[s.fed..] == [] && s.jobs == [] && s.dropped == [];
      }
    }
    if multiset(out) == multiset(urls) {
      assert |multiset(out)| == |out| && |multiset(urls)| == |urls|;
    }
  }

  /** Every URL is checked exactly if no error is returned and the feeder got through the whole input,
      that is, never took the branch in which it stops on cancellation. */
  lemma CompleteExactly(urls: seq<string>, pool: nat, s: State)
    requires Inv(urls, pool, s) && s.caller.Returned?
    ensures multiset(UrlsOf(s.caller.out)) == multiset(urls) <==> !s.caller.failed && s.fed == |urls|
  {
    ReturnedResults(urls, pool, s);
    IdleInFlight(s.workers, "");
    if !s.caller.failed {
      assert pool > 0 ==> s.workers[0] == Quit(false);
      assert s.jobs == [];
    }
  }

  /** Without an interrupt and with at least one worker there is exactly one result per input URL and
      no error. */
  lemma UninterruptedIsComplete(urls: seq<string>, pool: nat, steps: seq<Step>, t: State)
    requires Run(urls, pool, Start(pool), steps, t)
    requires pool >= 1 && t.caller.Returned? && !t.interrupted
    ensures !t.caller.failed && multiset(UrlsOf(t.caller.out)) == multiset(urls)
  {
    StartsInv(urls, pool);
    RunKeepsInv(urls, pool, Start(pool), steps, t);
    assert !AnyFailed(t.workers) && AllQuit(t.workers);
    assert t.workers[0] == Quit(false);
    IdleInFlight(t.workers, "");
    ReturnedResults(urls, pool, t);
  }

  /** With an interrupt, no error does not mean that every URL was checked: the feeder may stop before
      it has sent anything, and then the worker finds a closed, empty channel. */
  lemma NoErrorYetIncomplete(url: string)
    ensures exists steps, t ::
      Run([url], 1, Start(1), steps, t) && t.caller == Returned([], false)
  {
    var urls := [url];
    var s0 := Start(1);
    var s1 := Apply(urls, 1, s0, Interrupt);
    var s2 := Apply(urls, 1, s1, Close);
    var s3 := Apply(urls, 1, s2, Finish(0));
    var s4 := Apply(urls, 1, s3, Return);
    assert !AnyFailed(s3.workers);
    assert Run(urls, 1, s4, [], s4);
    StepThen(urls, 1, s3, Return, [], s4);
    StepThen(urls, 1, s2, Finish(0), [Return], s4);
    StepThen(urls, 1, s1, Close, [Finish(0), Return], s4);
    StepThen(urls, 1, s0, Interrupt, [Close, Finish(0), Return], s4);
  }

  lemma StepThen(urls: seq<string>, pool: nat, s: State, step: Step, rest: seq<Step>, t: State)
    requires Enabled(urls, pool, s, step) && Run(urls, pool, Apply(urls, pool, s, step), rest, t)
    ensures Run(urls, pool, s, [step] + rest, t)
  {
    assert ([step] + rest)[1..] == rest;
  }
}
