/** The stack-leveling robot of practice/robotic_leveling.go: the command chosen from a state, the rules
    of the factory, and the closed loop of the two. */
module RobotLeveling {

  // Sums of sequences.

  function Sum(s: seq<int>): int {
    if s == [] then 0 else s[0] + Sum(s[1..])
  }

  lemma {:induction false} SumUpdate(s: seq<int>, i: nat, v: int)
    requires i < |s|
    ensures Sum(s[i := v]) == Sum(s) - s[i] + v
  {
    if i == 0 {
      assert s[0 := v][1..] == s[1..];
    } else {
      assert s[i := v][1..] == s[1..][i - 1 := v];
      SumUpdate(s[1..], i - 1, v);
    }
  }

  lemma {:induction false} SumMonotone(s: seq<int>, t: seq<int>)
    requires |s| == |t| && forall i :: 0 <= i < |s| ==> s[i] <= t[i]
    ensures Sum(s) <= Sum(t)
    ensures Sum(s) == Sum(t) ==> s == t
  {
    if s != [] {
      SumMonotone(s[1..], t[1..]);
      if Sum(s) == Sum(t) {
        assert s == [s[0]] + s[1..] && t == [t[0]] + t[1..];
      }
    }
  }

  lemma {:induction false} SumAppend(s: seq<int>, v: int)
    ensures Sum(s + [v]) == Sum(s) + v
  {
    if s != [] {
      assert (s + [v])[1..] == s[1..] + [v];
      SumAppend(s[1..], v);
    }
  }

  // The leveled configuration.

  function BoxCount(boxes: seq<nat>, holding: bool): int {
    Sum(boxes) + if holding then 1 else 0
  }

  lemma {:induction false} SumIsNatural(boxes: seq<nat>)
    ensures Sum(boxes) >= 0
  {
    if boxes != [] {
      SumIsNatural(boxes[1..]);
    }
  }

  /** Heights that are as equal as they can be, with the extra boxes on the left. */
  ghost predicate Level(h: seq<nat>) {
    forall i, j :: 0 <= i < j < |h| ==> h[j] <= h[i] <= h[j] + 1
  }

  /** The first `k` stacks are one higher than the rest. */
  function Steps(n: nat, base: nat, k: nat): (r: seq<nat>)
    ensures |r| == n && forall i :: 0 <= i < n ==> r[i] == base + if i < k then 1 else 0
  {
    seq(n, i => base + if i < k then 1 else 0)
  }

  lemma {:induction false} SumSteps(n: nat, base: nat, k: nat)
    requires k <= n
    ensures Sum(Steps(n, base, k)) == n * base + k
  {
    if n > 0 {
      var prior := if k < n then k else n - 1;
      SumSteps(n - 1, base, prior);
      assert Steps(n, base, k) == Steps(n - 1, base, prior) + [base + if n - 1 < k then 1 else 0];
      SumAppend(Steps(n - 1, base, prior), base + if n - 1 < k then 1 else 0);
    }
  }

  /** The average rounded down, and one more on the left while there is remainder. */
  function TargetsFor(total: nat, n: nat): (r: seq<nat>)
    requires n > 0
    ensures |r| == n
  {
    Steps(n, total / n, total % n)
  }

  lemma StepsAreLevel(n: nat, base: nat, k: nat)
    ensures Level(Steps(n, base, k))
  {
  }

  lemma TargetsAreLevel(total: nat, n: nat)
    requires n > 0
    ensures Level(TargetsFor(total, n)) && Sum(TargetsFor(total, n)) == total
  {
    StepsAreLevel(n, total / n, total % n);
    SumSteps(n, total / n, total % n);
  }

  /** How many stacks are higher than the last. */
  function Raised(h: seq<nat>, base: nat): (k: nat)
    ensures k <= |h|
    ensures forall i :: 0 <= i < k ==> h[i] > base
    ensures k < |h| ==> h[k] <= base
  {
    if h != [] && h[0] > base then 1 + Raised(h[1..], base) else 0
  }

  lemma LevelIsSteps(h: seq<nat>, base: nat, k: nat)
    requires h != [] && Level(h) && base == h[|h| - 1] && k == Raised(h, base)
    ensures k < |h| && h == Steps(|h|, base, k)
  {
    assert k < |h|;
    forall i | 0 <= i < |h| ensures h[i] == base + if i < k then 1 else 0 {
      assert i < |h| - 1 ==> base <= h[i] <= base + 1;
      assert k < i < |h| ==> h[i] <= h[k];
    }
  }

  /** The targets are the only leveled arrangement of that many boxes. */
  lemma LevelIsUnique(h: seq<nat>)
    requires h != [] && Level(h)
    ensures Sum(h) >= 0 && h == TargetsFor(Sum(h), |h|)
  {
    SumIsNatural(h);
    var n, base := |h|, h[|h| - 1];
    var k := Raised(h, base);
    LevelIsSteps(h, base, k);
    SumSteps(n, base, k);
    QuotientIsBase(Sum(h), n, base, k);
  }

  lemma QuotientIsBase(total: nat, n: nat, base: nat, k: nat)
    requires total == n * base + k && k < n
    ensures total / n == base && total % n == k
  {
    OneQuotient(n, total / n, total % n, base, k);
  }

  lemma OneQuotient(n: nat, q: nat, r: nat, base: nat, k: nat)
    requires n * q + r == n * base + k && k < n && r < n
    ensures q == base && r == k
  {
    if q > base {
      MulGap(n, base, q);
    } else if q < base {
      MulGap(n, q, base);
    }
  }

  lemma {:induction false} MulGap(n: nat, a: nat, b: nat)
    requires a < b
    ensures n * b >= n * a + n
  {
    if a + 1 < b {
      MulGap(n, a, b - 1);
    }
    assert n * b == n * (b - 1) + n;
  }

  method ComputeTargetHeights(boxes: seq<nat>, holding: bool) returns (targets: seq<nat>)
    requires boxes != []
    ensures BoxCount(boxes, holding) >= 0 && targets == TargetsFor(BoxCount(boxes, holding), |boxes|)
    ensures
      var total, n := Sum(boxes) + (if holding then 1 else 0), |boxes|;
      |targets| == n && forall i :: 0 <= i < n ==> targets[i] == total / n + if i < total % n then 1 else 0
  {
    var sum: int := 0;
    var n := |boxes|;
    for i := 0 to n
      invariant sum >= 0 && sum == Sum(boxes[..i])
    {
      assert boxes[..i + 1] == boxes[..i] + [boxes[i]];
      SumAppend(boxes[..i], boxes[i]);
      sum := sum + boxes[i];
    }
    assert boxes[..n] == boxes;
    if holding {
      sum := sum + 1;
    }
    targets := Spread(n, sum / n, sum % n);
  }

  method Spread(n: nat, avg: nat, extra: nat) returns (targets: seq<nat>)
    ensures targets == Steps(n, avg, extra)
  {
    var rem := extra;
    targets := [];
    for i := 0 to n
      invariant |targets| == i && rem == if i < extra then extra - i else 0
      invariant forall j :: 0 <= j < i ==> targets[j] == avg + if j < extra then 1 else 0
    {
      var t := avg;
      if 0 < rem {
        t := t + 1;
        rem := rem - 1;
      }
      targets := targets + [t];
    }
  }

  method IsLeveled(boxes: seq<nat>, targets: seq<nat>) returns (r: bool)
    requires |boxes| == |targets|
    ensures r <==> boxes == targets
  {
    for i := 0 to |boxes|
      invariant boxes[..i] == targets[..i]
    {
      if boxes[i] != targets[i] {
        return false;
      }
    }
    return true;
  }

  /** `i` is the leftmost place where `a` exceeds `b`, or -1 when there is none. */
  ghost predicate LeftmostAbove(a: seq<nat>, b: seq<nat>, i: int)
    requires |a| == |b|
  {
    && -1 <= i < |a| && (i >= 0 ==> b[i] < a[i])
    && forall j :: 0 <= j < (if i < 0 then |a| else i) ==> a[j] <= b[j]
  }

  ghost function Leftmost(a: seq<nat>, b: seq<nat>): (i: int)
    requires |a| == |b|
    ensures LeftmostAbove(a, b, i)
  {
    if a == [] then -1
    else if b[0] < a[0] then 0
    else
      var rest := Leftmost(a[1..], b[1..]);
      if rest < 0 then -1 else rest + 1
  }

  lemma LeftmostIsUnique(a: seq<nat>, b: seq<nat>, i: int)
    requires |a| == |b| && LeftmostAbove(a, b, i)
    ensures i == Leftmost(a, b)
  {
  }

  method FindSource(boxes: seq<nat>, targets: seq<nat>) returns (r: int)
    requires |boxes| == |targets|
    ensures r == Leftmost(boxes, targets) && -1 <= r < |boxes| && (r >= 0 ==> boxes[r] > targets[r])
    ensures forall j :: 0 <= j < (if r < 0 then |boxes| else r) ==> boxes[j] <= targets[j]
  {
    for i := 0 to |boxes|
      invariant forall j :: 0 <= j < i ==> boxes[j] <= targets[j]
    {
      if targets[i] < boxes[i] {
        LeftmostIsUnique(boxes, targets, i);
        return i;
      }
    }
    LeftmostIsUnique(boxes, targets, -1);
    return -1;
  }

  method FindTarget(boxes: seq<nat>, targets: seq<nat>) returns (r: int)
    requires |boxes| == |targets|
    ensures r == Leftmost(targets, boxes) && -1 <= r < |boxes| && (r >= 0 ==> boxes[r] < targets[r])
    ensures forall j :: 0 <= j < (if r < 0 then |boxes| else r) ==> boxes[j] >= targets[j]
  {
    for i := 0 to |boxes|
      invariant forall j :: 0 <= j < i ==> targets[j] <= boxes[j]
    {
      if boxes[i] < targets[i] {
        LeftmostIsUnique(targets, boxes, i);
        return i;
      }
    }
    LeftmostIsUnique(targets, boxes, -1);
    return -1;
  }

  // The factory's rules.

  datatype Command = Right | Left | Pick | Place

  datatype Option<T> = None | Some(value: T)

  datatype Arm = Arm(claw: nat, boxes: seq<nat>, holding: bool) {
    ghost predicate Valid() { claw < |boxes| }

    function Total(): (r: nat) {
      SumIsNatural(boxes);
      BoxCount(boxes, holding)
    }

    function Targets(): seq<nat>
      requires boxes != []
    {
      TargetsFor(Total(), |boxes|)
    }

    ghost predicate Leveled()
      requires boxes != []
    {
      !holding && boxes == Targets()
    }
  }

  ghost predicate Legal(arm: Arm, cmd: Command)
    requires arm.Valid()
  {
    match cmd
    case Right => arm.claw + 1 < |arm.boxes|
    case Left => arm.claw > 0
    case Pick => !arm.holding && arm.boxes[arm.claw] > 0
    case Place => arm.holding
  }

  ghost function Apply(arm: Arm, cmd: Command): (r: Arm)
    requires arm.Valid() && Legal(arm, cmd)
    ensures r.Valid() && |r.boxes| == |arm.boxes|
  {
    var c := arm.claw;
    match cmd
    case Right => arm.(claw := c + 1)
    case Left => arm.(claw := c - 1)
    case Pick => Arm(c, arm.boxes[c := arm.boxes[c] - 1], true)
    case Place => Arm(c, arm.boxes[c := arm.boxes[c] + 1], false)
  }

  function Toward(from: nat, to: nat, there: Command): Command {
    if from == to then there else if from < to then Right else Left
  }

  /** The leftmost stack with a box to spare, and the leftmost one in need; -1 when there is none. */
  ghost function Source(arm: Arm): int
    requires arm.boxes != []
  {
    Leftmost(arm.boxes, arm.Targets())
  }

  ghost function Dest(arm: Arm): int
    requires arm.boxes != []
  {
    Leftmost(arm.Targets(), arm.boxes)
  }

  /** Holding a box: go to the destination and place it. Otherwise: go to the source and pick a box.
      `None` is the empty string. */
  ghost function NextCommand(arm: Arm): Option<Command>
    requires arm.Valid()
  {
    if arm.holding then
      if Dest(arm) < 0 then None else Some(Toward(arm.claw, Dest(arm), Place))
    else
      if Source(arm) < 0 then None else Some(Toward(arm.claw, Source(arm), Pick))
  }

  /** The leftmost stack short of its target for a box in the claw, else the leftmost one above its target. */
  ghost predicate Seeks(arm: Arm, goal: nat)
    requires arm.Valid()
  {
    var t := arm.Targets();
    && goal < |arm.boxes|
    && (if arm.holding then arm.boxes[goal] < t[goal] else arm.boxes[goal] > t[goal])
    && forall j :: 0 <= j < goal ==> if arm.holding then arm.boxes[j] >= t[j] else arm.boxes[j] <= t[j]
  }

  method Solve(claw: nat, boxes: seq<nat>, holding: bool) returns (cmd: Option<Command>)
    requires claw < |boxes|
    ensures cmd == NextCommand(Arm(claw, boxes, holding))
    ensures cmd.None? <==> Arm(claw, boxes, holding).Leveled()
    ensures cmd.Some? ==> exists goal: nat ::
      Seeks(Arm(claw, boxes, holding), goal)
      && cmd.value == if claw < goal then Right else if claw > goal then Left else if holding then Place else Pick
  {
    ghost var arm := Arm(claw, boxes, holding);
    var targets := ComputeTargetHeights(boxes, holding);
    var source := FindSource(boxes, targets);
    var dest := FindTarget(boxes, targets);
    SourceAndDest(arm);
    assert holding && 0 <= dest ==> Seeks(arm, dest);
    assert !holding && 0 <= source ==> Seeks(arm, source);
    if holding && 0 <= dest {
      if claw == dest {
        return Some(Place);
      } else if claw < dest {
        return Some(Right);
      } else {
        return Some(Left);
      }
    } else if !holding && 0 <= source {
      if claw < source {
        return Some(Right);
      } else if claw == source {
        return Some(Pick);
      } else {
        return Some(Left);
      }
    }
    return None;
  }

  // Surplus and deficit.

  function Excess(a: nat, b: nat): nat { if b < a then a - b else 0 }

  function Over(boxes: seq<nat>, targets: seq<nat>): (r: seq<int>)
    requires |boxes| == |targets|
    ensures |r| == |boxes| && forall i :: 0 <= i < |r| ==> r[i] == Excess(boxes[i], targets[i])
  {
    seq(|boxes|, i requires 0 <= i < |boxes| => Excess(boxes[i], targets[i]))
  }

  function Surplus(arm: Arm): int
    requires arm.boxes != []
  {
    Sum(Over(arm.boxes, arm.Targets()))
  }

  /** The deficit exceeds the surplus by the box in the claw, if any. */
  lemma {:induction false} Balance(boxes: seq<nat>, targets: seq<nat>)
    requires |boxes| == |targets|
    ensures Sum(Over(boxes, targets)) - Sum(Over(targets, boxes)) == Sum(boxes) - Sum(targets)
  {
    if boxes != [] {
      Balance(boxes[1..], targets[1..]);
      assert Over(boxes, targets)[1..] == Over(boxes[1..], targets[1..]);
      assert Over(targets, boxes)[1..] == Over(targets[1..], boxes[1..]);
    }
  }

  lemma {:induction false} SumOver(boxes: seq<nat>, targets: seq<nat>)
    requires |boxes| == |targets|
    ensures Sum(Over(boxes, targets)) >= 0
    ensures Sum(Over(boxes, targets)) == 0 <==> forall i :: 0 <= i < |boxes| ==> boxes[i] <= targets[i]
  {
    var over := Over(boxes, targets);
    var zeros: seq<int> := seq(|boxes|, i => 0);
    SumZeros(zeros);
    SumMonotone(zeros, over);
    if Sum(over) == 0 {
      assert zeros == over;
      forall i | 0 <= i < |boxes| ensures boxes[i] <= targets[i] {
        assert over[i] == 0;
      }
    }
    if forall i :: 0 <= i < |boxes| ==> boxes[i] <= targets[i] {
      assert over == zeros;
    }
  }

  lemma {:induction false} SumZeros(zeros: seq<int>)
    requires forall i :: 0 <= i < |zeros| ==> zeros[i] == 0
    ensures Sum(zeros) == 0
  {
    if zeros != [] {
      SumZeros(zeros[1..]);
    }
  }

  /** A held box always has somewhere to go, and an unleveled state with an empty claw has a source. */
  lemma SourceAndDest(arm: Arm)
    requires arm.Valid()
    ensures arm.holding ==> Dest(arm) >= 0
    ensures !arm.holding ==> (Source(arm) < 0 <==> arm.Leveled())
    ensures !arm.holding ==> (Source(arm) < 0 <==> Dest(arm) < 0)
    ensures Surplus(arm) >= 0 && (Surplus(arm) == 0 <==> Source(arm) < 0)
  {
    var t := arm.Targets();
    TargetsAreLevel(arm.Total(), |arm.boxes|);
    Balance(arm.boxes, t);
    SumOver(arm.boxes, t);
    SumOver(t, arm.boxes);
    if !arm.holding && Source(arm) < 0 {
      assert forall i :: 0 <= i < |t| ==> arm.boxes[i] == t[i];
      assert arm.boxes == t;
    }
  }
}
