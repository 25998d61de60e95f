/** The scheduler's loop against goroutines that add tasks between any two of its steps. */
module SchedulerRuns {
  import opened TaskScheduler

  /** Where the loop stands. */
  datatype Loop =
    | Top                    // about to take the lock
    | Idle                   // found nothing, waits for a signal or for cancellation
    | Due(peeked: Task)      // saw a task whose time has come, about to pop
    | Sleeping(peeked: Task) // waits for the timer of the task it saw, a signal or cancellation
    | Fired(peeked: Task)    // the timer has fired, about to pop
    | Stopped

  /** A task the loop has popped, when, and what was pending then, the task included. */
  datatype Execution = Execution(task: Task, at: int, pending: seq<Task>)

  datatype State = State(
    tasks: seq<Task>, loop: Loop, now: int,
    added: multiset<Task>, executed: seq<Execution>, taken: multiset<Task>)

  datatype Step =
    | Tick(now: int)                    // the clock moves on
    | Add(t: Task, after: seq<Task>)    // AddTask's locked section
    | Peek                              // Run's locked section
    | Wake                              // a signal is received
    | Cancel                            // the context is done
    | Fire                              // the timer fires
    | Execute(t: Task, after: seq<Task>)// ExecuteNextTask's locked section, from the loop
    | ExecuteNothing                    // the same on an empty heap
    | Take(t: Task, after: seq<Task>)   // another goroutine calls GetNextTask or ExecuteNextTask

  function Start(now: int): State { State([], Top, now, multiset{}, [], multiset{}) }

  predicate AboutToPop(loop: Loop) { loop.Due? || loop.Fired? }

  ghost predicate Enabled(s: State, step: Step) {
    match step
    case Tick(now) => s.now <= now
    case Add(t, after) => Pushed(s.tasks, t, after)
    case Peek => s.loop.Top?
    case Wake => s.loop.Idle? || s.loop.Sleeping?
    case Cancel => s.loop.Idle? || s.loop.Sleeping?
    case Fire => s.loop.Sleeping? && s.loop.peeked.executeAt <= s.now
    case Execute(t, after) => AboutToPop(s.loop) && s.tasks != [] && Popped(s.tasks, t, after)
    case ExecuteNothing => AboutToPop(s.loop) && s.tasks == []
    case Take(t, after) => s.tasks != [] && Popped(s.tasks, t, after)
  }

  ghost function Apply(s: State, step: Step): State
    requires Enabled(s, step)
  {
    match step
    case Tick(now) => s.(now := now)
    case Add(t, after) => s.(tasks := after, added := s.added + multiset{t})
    case Peek =>
      s.(loop := if s.tasks == [] then Idle
                 else if s.tasks[0].executeAt - s.now <= 0 then Due(s.tasks[0])
                 else Sleeping(s.tasks[0]))
    case Wake => s.(loop := Top)
    case Cancel => s.(loop := Stopped)
    case Fire => s.(loop := Fired(s.loop.peeked))
    case Execute(t, after) =>
      s.(tasks := after, loop := Top, executed := s.executed + [Execution(t, s.now, s.tasks)])
    case ExecuteNothing => s.(loop := Top)
    case Take(t, after) => s.(tasks := after, taken := s.taken + multiset{t})
  }

  ghost predicate Run(s: State, steps: seq<Step>, t: State)
    decreases steps
  {
    if steps == [] then s == t else Enabled(s, steps[0]) && Run(Apply(s, steps[0]), steps[1..], t)
  }

  ghost function Tasks(executed: seq<Execution>): multiset<Task> {
    if executed == [] then multiset{}
    else Tasks(executed[..|executed| - 1]) + multiset{executed[|executed| - 1].task}
  }

  /** The execution took a task that was pending and that no pending task goes before. */
  ghost predicate InTurn(e: Execution) {
    e.task in e.pending && forall u :: u in e.pending ==> !Sooner(u, e.task)
  }

  /** What holds however many goroutines remove tasks. */
  ghost predicate Inv(s: State) {
    && Ordered(s.tasks)
    && s.added == Tasks(s.executed) + s.taken + multiset(s.tasks)
    && forall i :: 0 <= i < |s.executed| ==> InTurn(s.executed[i])
  }

  /** No task was executed before its time. */
  ghost predicate Timely(s: State) {
    forall i :: 0 <= i < |s.executed| ==> s.executed[i].task.executeAt <= s.executed[i].at
  }

  function Later(a: int, b: int): int { if a < b then b else a }

  /** Some pending task is due by `time`. */
  ghost predicate DueBy(tasks: seq<Task>, time: int) {
    exists u :: u in tasks && u.executeAt <= time
  }

  /** If the loop is bound to pop without looking again, something will be due when it does. */
  ghost predicate Covered(s: State) {
    match s.loop
    case Due(_) => DueBy(s.tasks, s.now)
    case Fired(_) => DueBy(s.tasks, s.now)
    case Sleeping(p) => DueBy(s.tasks, Later(s.now, p.executeAt))
    case _ => true
  }

  lemma InBoth(before: seq<Task>, t: Task, after: seq<Task>)
    requires multiset(after) == multiset(before) + multiset{t}
    ensures t in after && forall u :: u in before ==> u in after
  {
    assert t in multiset(after);
    forall u | u in before ensures u in after {
      assert u in multiset(before) && u in multiset(after);
    }
  }

  lemma KeepsInv(s: State, step: Step)
    requires Inv(s) && Enabled(s, step)
    ensures Inv(Apply(s, step))
  {
    if step.Execute? {
      ExecuteKeeps(s, step);
    }
  }

  lemma Moved(before: multiset<Task>, done: multiset<Task>, taken: multiset<Task>, pending: multiset<Task>,
    t: Task, after: multiset<Task>)
    requires before == done + taken + pending && pending == after + multiset{t}
    ensures before == (done + multiset{t}) + taken + after
  {
  }

  lemma TasksAppend(executed: seq<Execution>, e: Execution)
    ensures Tasks(executed + [e]) == Tasks(executed) + multiset{e.task}
  {
    assert (executed + [e])[..|executed|] == executed;
  }

  lemma ExecuteKeeps(s: State, step: Step)
    requires Inv(s) && step.Execute? && Enabled(s, step)
    ensures Inv(Apply(s, step))
  {
    var e := Execution(step.t, s.now, s.tasks);
    TasksAppend(s.executed, e);
    Moved(s.added, Tasks(s.executed), s.taken, multiset(s.tasks), step.t, multiset(step.after));
    InBoth(step.after, step.t, s.tasks);
    assert InTurn(e);
  }

  lemma DueStays(before: seq<Task>, after: seq<Task>, time: int, later: int)
    requires DueBy(before, time) && time <= later && forall u :: u in before ==> u in after
    ensures DueBy(after, later)
  {
    var u :| u in before && u.executeAt <= time;
  }

  /** Only another goroutine's removal can uncover a state, and a covered loop pops a task that is due. */
  lemma KeepsCovered(s: State, step: Step)
    requires Enabled(s, step) && Covered(s) && Timely(s) && !step.Take?
    ensures Covered(Apply(s, step)) && Timely(Apply(s, step))
  {
    match step
    case Tick(now) =>
      if s.loop.Sleeping? {
        DueStays(s.tasks, s.tasks, Later(s.now, s.loop.peeked.executeAt), Later(now, s.loop.peeked.executeAt));
      } else if AboutToPop(s.loop) {
        DueStays(s.tasks, s.tasks, s.now, now);
      }
    case Add(t, after) =>
      InBoth(s.tasks, t, after);
      if s.loop.Sleeping? {
        var time := Later(s.now, s.loop.peeked.executeAt);
        DueStays(s.tasks, after, time, time);
      } else if AboutToPop(s.loop) {
        DueStays(s.tasks, after, s.now, s.now);
      }
    case Peek =>
      assert s.tasks != [] ==> s.tasks[0] in s.tasks;
    case Execute(t, after) =>
      var u :| u in s.tasks && u.executeAt <= s.now;
      assert !Sooner(u, t);
    case _ =>
  }

  /** Every removal by another goroutine leaves the loop covered. */
  ghost predicate TakesLeaveCovered(s: State, steps: seq<Step>)
    decreases steps
  {
    steps != [] && Enabled(s, steps[0]) ==>
      && (steps[0].Take? ==> Covered(Apply(s, steps[0])))
      && TakesLeaveCovered(Apply(s, steps[0]), steps[1..])
  }

  predicate TakeFree(steps: seq<Step>) {
    forall i :: 0 <= i < |steps| ==> !steps[i].Take?
  }

  lemma {:induction false} RunKeepsInv(s: State, steps: seq<Step>, t: State)
    requires Inv(s) && Run(s, steps, t)
    ensures Inv(t) && (TakeFree(steps) ==> t.taken == s.taken && TakesLeaveCovered(s, steps))
    decreases steps
  {
    if steps != [] {
      KeepsInv(s, steps[0]);
      assert TakeFree(steps) ==> !steps[0].Take? && TakeFree(steps[1..]);
      RunKeepsInv(Apply(s, steps[0]), steps[1..], t);
    }
  }

  /** If every removal by others leaves the loop covered, no task is executed early. */
  lemma {:induction false} CoveredRunsAreTimely(s: State, steps: seq<Step>, t: State)
    requires Run(s, steps, t) && Covered(s) && Timely(s) && TakesLeaveCovered(s, steps)
    ensures Covered(t) && Timely(t)
    decreases steps
  {
    if steps != [] {
      if steps[0].Take? {
        assert Apply(s, steps[0]).executed == s.executed;
      } else {
        KeepsCovered(s, steps[0]);
      }
      CoveredRunsAreTimely(Apply(s, steps[0]), steps[1..], t);
    }
  }

  // The converse: from a state that is not covered, an early execution can follow.

  ghost predicate InOrder(tasks: seq<Task>) {
    forall i, j :: 0 <= i < j < |tasks| ==> !Sooner(tasks[j], tasks[i])
  }

  lemma InsertedInOrder(tasks: seq<Task>, t: Task) returns (r: seq<Task>)
    requires InOrder(tasks)
    ensures InOrder(r) && multiset(r) == multiset(tasks) + multiset{t}
    decreases |tasks|
  {
    if tasks == [] || !Sooner(t, tasks[|tasks| - 1]) {
      r := tasks + [t];
    } else {
      var front, last := tasks[..|tasks| - 1], tasks[|tasks| - 1];
      var q := InsertedInOrder(front, t);
      assert tasks == front + [last];
      forall u | u in q ensures !Sooner(last, u) {
        assert u in multiset(q);
        assert u in front || u == t;
      }
      r := q + [last];
    }
  }

  /** Any tasks can be put in a heap. */
  lemma SomeHeap(tasks: seq<Task>) returns (r: seq<Task>)
    ensures InOrder(r) && Ordered(r) && multiset(r) == multiset(tasks)
    decreases |tasks|
  {
    if tasks == [] {
      r := [];
    } else {
      var q := SomeHeap(tasks[1..]);
      r := InsertedInOrder(q, tasks[0]);
      assert tasks == [tasks[0]] + tasks[1..];
    }
  }

  lemma PopsRoot(tasks: seq<Task>) returns (after: seq<Task>)
    requires Ordered(tasks) && tasks != []
    ensures Popped(tasks, tasks[0], after)
  {
    after := SomeHeap(tasks[1..]);
    assert tasks == [tasks[0]] + tasks[1..];
    RootIsSoonest(tasks);
  }

  /** About to pop with nothing due: the next pop is early, if need be after one more task was added. */
  lemma PopsEarly(s: State) returns (steps: seq<Step>, t: State)
    requires Inv(s) && AboutToPop(s.loop) && !Covered(s)
    ensures Run(s, steps, t) && TakeFree(steps) && !Timely(t)
  {
    if s.tasks != [] {
      var after := PopsRoot(s.tasks);
      assert s.tasks[0] in s.tasks;
      steps, t := [Execute(s.tasks[0], after)], Apply(s, Execute(s.tasks[0], after));
      StepThen(s, Execute(s.tasks[0], after), [], t);
      assert t.executed[|s.executed|] == Execution(s.tasks[0], s.now, s.tasks);
    } else {
      var u := Task("", s.now + 1, 0);
      var added := Apply(s, Add(u, [u]));
      assert multiset([u]) == multiset([]) + multiset{u};
      t := Apply(added, Execute(u, []));
      steps := [Add(u, [u])] + [Execute(u, [])];
      StepThen(added, Execute(u, []), [], t);
      StepThen(s, Add(u, [u]), [Execute(u, [])], t);
      assert t.executed[|s.executed|] == Execution(u, s.now, [u]);
    }
  }

  lemma UncoveredCanBeEarly(s: State) returns (steps: seq<Step>, t: State)
    requires Inv(s) && !Covered(s)
    ensures Run(s, steps, t) && TakeFree(steps) && !Timely(t)
  {
    if AboutToPop(s.loop) {
      steps, t := PopsEarly(s);
    } else {
      var time := Later(s.now, s.loop.peeked.executeAt);
      var ticked := Apply(s, Tick(time));
      var fired := Apply(ticked, Fire);
      var rest;
      rest, t := PopsEarly(fired);
      StepThen(ticked, Fire, rest, t);
      StepThen(s, Tick(time), [Fire] + rest, t);
      steps := [Tick(time)] + ([Fire] + rest);
    }
  }

  /** Covered is exactly what it takes: without a further removal by others nothing early can follow if
      and only if the state is covered. */
  lemma CoveredIsExact(s: State)
    requires Inv(s) && Timely(s)
    ensures Covered(s) <==> forall steps, t :: Run(s, steps, t) && TakeFree(steps) ==> Timely(t)
  {
    if Covered(s) {
      forall steps, t | Run(s, steps, t) && TakeFree(steps) ensures Timely(t) {
        RunKeepsInv(s, steps, t);
        CoveredRunsAreTimely(s, steps, t);
      }
    } else {
      var steps, t := UncoveredCanBeEarly(s);
    }
  }

  /** In every interleaving: what was added has been executed, taken by somebody else, or is pending;
      and the loop only executes tasks that are to run before everything then pending. */
  lemma NothingLost(now: int, steps: seq<Step>, t: State)
    requires Run(Start(now), steps, t)
    ensures t.added == Tasks(t.executed) + t.taken + multiset(t.tasks)
    ensures forall i :: 0 <= i < |t.executed| ==> InTurn(t.executed[i])
    ensures forall e, u {:trigger e in t.executed, u in e.pending} :: e in t.executed && u in e.pending ==>
      e.task.executeAt < u.executeAt || (e.task.executeAt == u.executeAt && e.task.priority <= u.priority)
  {
    RunKeepsInv(Start(now), steps, t);
    forall e, u | e in t.executed && u in e.pending ensures !Sooner(u, e.task) {
      assert InTurn(e);
    }
  }

  /** The loop sees what there is to see: it goes idle exactly if nothing is pending, pops exactly if some
      pending task is due, and otherwise sleeps until the earliest one. */
  lemma PeekIsExact(s: State)
    requires Ordered(s.tasks) && s.loop.Top?
    ensures
      var loop := Apply(s, Peek).loop;
      && (loop.Idle? <==> s.tasks == [])
      && (loop.Due? <==> exists u :: u in s.tasks && u.executeAt <= s.now)
      && (loop.Sleeping? <==> s.tasks != [] && forall u :: u in s.tasks ==> u.executeAt > s.now)
      && (loop.Due? || loop.Sleeping? ==>
           loop.peeked in s.tasks && forall u :: u in s.tasks ==> loop.peeked.executeAt <= u.executeAt)
  {
    if s.tasks != [] {
      RootIsSoonest(s.tasks);
      assert s.tasks[0] in s.tasks;
    }
  }

  /** In every interleaving in which only the loop removes tasks, no task is executed before its time,
      whatever is added between the peek and the pop. */
  lemma NeverEarly(now: int, steps: seq<Step>, t: State)
    requires Run(Start(now), steps, t) && TakeFree(steps)
    ensures Timely(t) && t.added == Tasks(t.executed) + multiset(t.tasks)
  {
    RunKeepsInv(Start(now), steps, t);
    CoveredRunsAreTimely(Start(now), steps, t);
  }

  /** The same for runs in which others do remove tasks, as long as they leave the loop covered. */
  lemma NeverEarlyWhileCovered(now: int, steps: seq<Step>, t: State)
    requires Run(Start(now), steps, t) && TakesLeaveCovered(Start(now), steps)
    ensures Timely(t) && t.added == Tasks(t.executed) + t.taken + multiset(t.tasks)
  {
    RunKeepsInv(Start(now), steps, t);
    CoveredRunsAreTimely(Start(now), steps, t);
  }

  /** A removal that uncovers the loop can be followed by an early execution: a second remover takes the due task after the loop has seen it, and the loop then
      pops the next one, here a whole hour early. */
  lemma SecondRemoverMakesEarly()
    ensures exists steps, t :: Run(Start(0), steps, t) && |t.executed| == 1 && t.executed[0].task.executeAt > t.executed[0].at
  {
    var due, later := Task("due", 0, 0), Task("later", 3600, 0);
    var s0 := Start(0);
    var s1 := Apply(s0, Add(due, [due]));
    assert Keys([due, later])[0] == TaskKey(due) && Keys([due, later])[1] == TaskKey(later);
    assert multiset([due, later]) == multiset([due]) + multiset{later};
    var s2 := Apply(s1, Add(later, [due, later]));
    var s3 := Apply(s2, Peek);
    assert multiset([due, later]) == multiset([later]) + multiset{due};
    var s4 := Apply(s3, Take(due, [later]));
    assert multiset([later]) == multiset([]) + multiset{later};
    var s5 := Apply(s4, Execute(later, []));
    StepThen(s4, Execute(later, []), [], s5);
    StepThen(s3, Take(due, [later]), [Execute(later, [])], s5);
    StepThen(s2, Peek, [Take(due, [later]), Execute(later, [])], s5);
    StepThen(s1, Add(later, [due, later]), [Peek, Take(due, [later]), Execute(later, [])], s5);
    StepThen(s0, Add(due, [due]), [Add(later, [due, later]), Peek, Take(due, [later]), Execute(later, [])], s5);
  }

  lemma StepThen(s: State, step: Step, rest: seq<Step>, t: State)
    requires Enabled(s, step) && Run(Apply(s, step), rest, t)
    ensures Run(s, [step] + rest, t)
  {
    assert ([step] + rest)[1..] == rest;
  }
}
