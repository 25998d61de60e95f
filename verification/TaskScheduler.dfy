/** The task scheduler: a heap of tasks behind a lock, and the loop that peeks, waits and pops while
    other goroutines add tasks at any moment. Each locked section is one atomic step. */
module TaskScheduler {
  import opened HeapOrder

  datatype Task = Task(id: string, executeAt: int, priority: nat)

  function TaskKey(t: Task): Key { Key(t.executeAt, t.priority) }

  /** The order of `Less`: by time, then by priority. */
  predicate Sooner(a: Task, b: Task) {
    a.executeAt < b.executeAt || (a.executeAt == b.executeAt && a.priority < b.priority)
  }

  ghost function Keys(tasks: seq<Task>): (ks: seq<Key>)
    ensures |ks| == |tasks| && forall i :: 0 <= i < |ks| ==> ks[i] == TaskKey(tasks[i])
  {
    seq(|tasks|, i requires 0 <= i < |tasks| => TaskKey(tasks[i]))
  }

  ghost predicate Ordered(tasks: seq<Task>) {
    IsHeap(Keys(tasks), |tasks|)
  }

  /** No task of the heap goes before its root. */
  lemma RootIsSoonest(tasks: seq<Task>)
    requires Ordered(tasks) && tasks != []
    ensures forall t :: t in tasks ==> !Sooner(t, tasks[0])
  {
    forall t | t in tasks ensures !Sooner(t, tasks[0]) {
      var i :| 0 <= i < |tasks| && tasks[i] == t;
      RootIsLeast(Keys(tasks), |tasks|, i);
    }
  }

  /** What pushing onto the heap does. */
  ghost predicate Pushed(before: seq<Task>, t: Task, after: seq<Task>) {
    Ordered(after) && multiset(after) == multiset(before) + multiset{t}
  }

  /** What popping off the heap does: it takes a task that no other goes before. */
  ghost predicate Popped(before: seq<Task>, t: Task, after: seq<Task>) {
    && Ordered(after) && multiset(before) == multiset(after) + multiset{t}
    && forall u :: u in before ==> !Sooner(u, t)
  }

  /** In the fields: what is popped is due before every other task, or at the same time and with a
      priority number that is no larger, 0 being the first. */
  lemma PoppedIsFirst(before: seq<Task>, t: Task, after: seq<Task>)
    requires Popped(before, t, after)
    ensures forall u {:trigger u in before} :: u in before ==>
      t.executeAt < u.executeAt || (t.executeAt == u.executeAt && t.priority <= u.priority)
  {
  }

  lemma LastApart(tasks: seq<Task>, swapped: seq<Task>, last: nat)
    requires last + 1 == |tasks| == |swapped| && tasks[last..] == swapped[last..]
    ensures tasks[last] == swapped[last] && multiset(tasks) == multiset(tasks[..last]) + multiset{tasks[last]}
    ensures IsHeap(Keys(tasks), last) ==> Ordered(tasks[..last])
  {
    assert tasks[last..][0] == swapped[last..][0];
    assert tasks == tasks[..last] + [tasks[last]];
  }

  class Scheduler {
    var tasks: seq<Task>

    constructor ()
      ensures tasks == []
    {
      tasks := [];
    }

    method Swap(i: nat, j: nat)
      requires i < |tasks| && j < |tasks|
      modifies this
      ensures tasks == Swapped(old(tasks), i, j) && multiset(tasks) == multiset(old(tasks))
      ensures Keys(tasks) == Swapped(Keys(old(tasks)), i, j)
    {
      tasks := tasks[i := tasks[j]][j := tasks[i]];
      SwappedPermutes(old(tasks), i, j);
    }

    method Up(start: nat)
      requires start < |tasks|
      requires IsHeapBut(Keys(tasks), |tasks|, start) && BelowOk(Keys(tasks), |tasks|, start)
      modifies this
      ensures Ordered(tasks) && multiset(tasks) == multiset(old(tasks))
    {
      var j: nat := start;
      while true
        invariant j < |tasks| == |old(tasks)| && multiset(tasks) == multiset(old(tasks))
        invariant IsHeapBut(Keys(tasks), |tasks|, j) && BelowOk(Keys(tasks), |tasks|, j)
        decreases j
      {
        var i := if j == 0 then 0 else Parent(j);
        if i == j || !Sooner(tasks[j], tasks[i]) {
          break;
        }
        SwapUp(Keys(tasks), |tasks|, j);
        Swap(i, j);
        j := i;
      }
      HoleFilled(Keys(tasks), |tasks|, j);
    }

    method LeastChild(n: nat, i: nat) returns (j: nat)
      requires 2 * i + 1 < n <= |tasks|
      ensures Picked(Keys(tasks), n, i, j) && i < j < n
    {
      var j1 := 2 * i + 1;
      var j2 := j1 + 1;
      j := if j2 < n && Sooner(tasks[j2], tasks[j1]) then j2 else j1;
    }

    /** Swaps the task at `i` with its least child, which goes before it. */
    method Sink(n: nat, i: nat, j: nat)
      requires 2 * i + 1 < n <= |tasks| && IsHeapBut(Keys(tasks), n, i)
      requires Picked(Keys(tasks), n, i, j) && Before(Keys(tasks)[j], Keys(tasks)[i])
      modifies this
      ensures |tasks| == |old(tasks)| && multiset(tasks) == multiset(old(tasks)) && i < j < n
      ensures IsHeapBut(Keys(tasks), n, j) && AboveOk(Keys(tasks), n, j) && tasks[n..] == old(tasks)[n..]
    {
      SwapLeastChild(Keys(tasks), n, i, j);
      SwappedTail(tasks, i, j, n);
      Swap(i, j);
    }

    /** Sifts the root down within the first `n` tasks. */
    method Down(n: nat)
      requires n <= |tasks| && tasks != [] && IsHeapBut(Keys(tasks), n, 0)
      modifies this
      ensures |tasks| == |old(tasks)| && multiset(tasks) == multiset(old(tasks))
      ensures IsHeap(Keys(tasks), n) && tasks[n..] == old(tasks)[n..]
    {
      var i: nat := 0;
      while true
        invariant i < |tasks| == |old(tasks)| && multiset(tasks) == multiset(old(tasks))
        invariant IsHeapBut(Keys(tasks), n, i) && AboveOk(Keys(tasks), n, i)
        invariant tasks[n..] == old(tasks)[n..]
        decreases |tasks| - i
      {
        var j1 := 2 * i + 1;
        if j1 >= n {
          NoChild(Keys(tasks), n, i);
          break;
        }
        var j := LeastChild(n, i);
        if !Sooner(tasks[j], tasks[i]) {
          LeastChildAfter(Keys(tasks), n, i, j);
          break;
        }
        Sink(n, i, j);
        i := j;
      }
      HoleFilled(Keys(tasks), n, i);
    }

    method AddTask(t: Task)
      requires Ordered(tasks)
      modifies this
      ensures Pushed(old(tasks), t, tasks)
    {
      tasks := tasks + [t];
      assert Keys(tasks)[..|tasks| - 1] == Keys(old(tasks));
      Up(|tasks| - 1);
    }

    method PopTask() returns (t: Task)
      requires Ordered(tasks) && tasks != []
      modifies this
      ensures Popped(old(tasks), t, tasks)
      ensures forall u {:trigger u in old(tasks)} :: u in old(tasks) ==>
        t.executeAt < u.executeAt || (t.executeAt == u.executeAt && t.priority <= u.priority)
    {
      RootIsSoonest(tasks);
      var last := |tasks| - 1;
      ghost var ks := Keys(tasks);
      OverwriteMakesHole(ks, last + 1, 0, ks[last]);
      Swap(0, last);
      ghost var swapped := tasks;
      Down(last);
      t := tasks[last];
      LastApart(tasks, swapped, last);
      tasks := tasks[..last];
      PoppedIsFirst(old(tasks), t, tasks);
    }

    /** Pops the next task, if there is one. */
    method GetNextTask() returns (found: bool, t: Task)
      requires Ordered(tasks)
      modifies this
      ensures found <==> old(tasks) != []
      ensures if found then Popped(old(tasks), t, tasks) else tasks == []
      ensures found ==> forall u {:trigger u in old(tasks)} :: u in old(tasks) ==>
        t.executeAt < u.executeAt || (t.executeAt == u.executeAt && t.priority <= u.priority)
    {
      if |tasks| == 0 {
        return false, Task("", 0, 0);
      }
      t := PopTask();
      found := true;
    }
  }
}
