/** The closed loop of practice/robotic_leveling.go: asking for a command and carrying it out, until the
    stacks are level. Every command is legal, boxes are conserved, and the loop ends in time. */
module RobotTurns {
  import opened RobotLeveling

  function Dist(a: int, b: int): nat { if a < b then b - a else a - b }

  /** The far end's distance from stack `i`. */
  function Far(n: nat, i: nat): nat
    requires i < n
  {
    if i < n - 1 - i then n - 1 - i else i
  }

  /** The most that one box brought to stack `i` can cost: there and back, a pick and a place. */
  function Trip(n: nat, i: nat): nat
    requires i < n
  {
    2 * Far(n, i) + 2
  }

  function Trips(boxes: seq<nat>, targets: seq<nat>): (r: seq<int>)
    requires |boxes| == |targets|
    ensures |r| == |boxes|
    ensures forall i :: 0 <= i < |r| ==> r[i] == Excess(targets[i], boxes[i]) * Trip(|boxes|, i)
  {
    seq(|boxes|, i requires 0 <= i < |boxes| => Excess(targets[i], boxes[i]) * Trip(|boxes|, i))
  }

  function Owed(arm: Arm): int
    requires arm.boxes != []
  {
    Sum(Trips(arm.boxes, arm.Targets()))
  }

  /** `s` walks there and back over `n` stacks. */
  function Rounds(n: nat, s: int): (r: nat) {
    if s <= 0 then 0 else 2 * n + Rounds(n, s - 1)
  }

  lemma {:induction false} RoundsIsProduct(n: nat, s: nat)
    ensures Rounds(n, s) == 2 * n * s
  {
    if s > 0 {
      RoundsIsProduct(n, s - 1);
      assert 2 * n * s == 2 * n * (s - 1) + 2 * n;
    }
  }

  /** Turns left, counting every walk as the whole width. */
  ghost function ByWidth(arm: Arm): int
    requires arm.Valid()
  {
    var n, s := |arm.boxes|, Surplus(arm);
    if arm.holding then Dist(arm.claw, Dest(arm)) + 1 + Rounds(n, s)
    else if s == 0 then 0
    else Dist(arm.claw, Source(arm)) + 1 + n + Rounds(n, s - 1)
  }

  /** Turns left, charging each box's walks to the stack it is brought to. */
  ghost function ByTrips(arm: Arm): int
    requires arm.Valid()
  {
    if arm.holding && Dest(arm) >= 0 then
      Dist(arm.claw, Dest(arm)) + Owed(arm) - Far(|arm.boxes|, Dest(arm)) - 1
    else if Source(arm) >= 0 then Dist(arm.claw, Source(arm)) + Owed(arm)
    else 0
  }

  // One turn.

  lemma CommandIsLegal(arm: Arm)
    requires arm.Valid() && !arm.Leveled()
    ensures NextCommand(arm).Some? && Legal(arm, NextCommand(arm).value)
  {
    SourceAndDest(arm);
  }

  ghost function Turn(arm: Arm): (r: Arm)
    requires arm.Valid() && !arm.Leveled()
    ensures r.Valid() && |r.boxes| == |arm.boxes|
  {
    CommandIsLegal(arm);
    Apply(arm, NextCommand(arm).value)
  }

  lemma TurnConserves(arm: Arm)
    requires arm.Valid() && !arm.Leveled()
    ensures Turn(arm).Total() == arm.Total() && Turn(arm).Targets() == arm.Targets()
  {
    CommandIsLegal(arm);
    SumUpdate(arm.boxes, arm.claw, Turn(arm).boxes[arm.claw]);
  }

  ghost predicate ProgressByWidth(arm: Arm, next: Arm)
    requires arm.Valid() && next.Valid()
  {
    0 <= ByWidth(next) < ByWidth(arm)
  }

  ghost predicate ProgressByTrips(arm: Arm, next: Arm)
    requires arm.Valid() && next.Valid()
  {
    0 <= ByTrips(next) < ByTrips(arm)
  }

  lemma {:induction false} SumAtLeast(s: seq<int>, i: int)
    requires forall j :: 0 <= j < |s| ==> s[j] >= 0
    ensures Sum(s) >= 0 && (0 <= i < |s| ==> Sum(s) >= s[i])
  {
    if s != [] {
      SumAtLeast(s[1..], i - 1);
    }
  }

  lemma Scaled(a: nat, w: nat)
    ensures a * w >= 0 && (a > 0 ==> a * w >= w && (a - 1) * w == a * w - w)
  {
  }

  lemma TripsAreNatural(boxes: seq<nat>, targets: seq<nat>)
    requires |boxes| == |targets|
    ensures forall i :: 0 <= i < |boxes| ==> Trips(boxes, targets)[i] >= 0
  {
    forall i | 0 <= i < |boxes| ensures Trips(boxes, targets)[i] >= 0 {
      Scaled(Excess(targets[i], boxes[i]), Trip(|boxes|, i));
    }
  }

  lemma OwedAtLeast(arm: Arm, i: nat)
    requires i < |arm.boxes|
    ensures Owed(arm) >= 0
    ensures arm.boxes[i] < arm.Targets()[i] ==> Owed(arm) >= Trip(|arm.boxes|, i)
  {
    TripsAreNatural(arm.boxes, arm.Targets());
    SumAtLeast(Trips(arm.boxes, arm.Targets()), i);
    Scaled(Excess(arm.Targets()[i], arm.boxes[i]), Trip(|arm.boxes|, i));
  }

  lemma PickSpends(arm: Arm)
    requires arm.Valid() && !arm.holding && Source(arm) == arm.claw
    ensures Surplus(Turn(arm)) == Surplus(arm) - 1 && Owed(Turn(arm)) == Owed(arm)
    ensures Dest(Turn(arm)) == Dest(arm)
  {
    SourceAndDest(arm);
    TurnConserves(arm);
    var next, t, c := Turn(arm), arm.Targets(), arm.claw;
    assert next.boxes == arm.boxes[c := arm.boxes[c] - 1];
    var o: int := Excess(arm.boxes[c], t[c]) - 1;
    SumUpdate(Over(arm.boxes, t), c, o);
    assert Over(next.boxes, t) == Over(arm.boxes, t)[c := o];
    assert Trips(next.boxes, t) == Trips(arm.boxes, t);
    LeftmostIsUnique(t, next.boxes, Dest(arm));
  }

  lemma PlaceSpends(arm: Arm)
    requires arm.Valid() && arm.holding && Dest(arm) == arm.claw
    ensures Surplus(Turn(arm)) == Surplus(arm) && Owed(Turn(arm)) == Owed(arm) - Trip(|arm.boxes|, arm.claw)
    ensures Source(Turn(arm)) == Source(arm)
  {
    SourceAndDest(arm);
    TurnConserves(arm);
    PlaceKeepsSurplus(arm.boxes, arm.Targets(), arm.claw);
    PlacePaysTrip(arm.boxes, arm.Targets(), arm.claw);
  }

  lemma PlaceKeepsSurplus(boxes: seq<nat>, t: seq<nat>, c: nat)
    requires c < |boxes| == |t| && boxes[c] < t[c]
    ensures Over(boxes[c := boxes[c] + 1], t) == Over(boxes, t)
    ensures Leftmost(boxes[c := boxes[c] + 1], t) == Leftmost(boxes, t)
  {
    LeftmostIsUnique(boxes[c := boxes[c] + 1], t, Leftmost(boxes, t));
  }

  lemma PlacePaysTrip(boxes: seq<nat>, t: seq<nat>, c: nat)
    requires c < |boxes| == |t| && boxes[c] < t[c]
    ensures Sum(Trips(boxes[c := boxes[c] + 1], t)) == Sum(Trips(boxes, t)) - Trip(|boxes|, c)
  {
    Scaled(Excess(t[c], boxes[c]), Trip(|boxes|, c));
    var left: int := Trips(boxes, t)[c] - Trip(|boxes|, c);
    SumUpdate(Trips(boxes, t), c, left);
    assert Trips(boxes[c := boxes[c] + 1], t) == Trips(boxes, t)[c := left];
  }

  lemma WalkSpends(arm: Arm)
    requires arm.Valid() && !arm.Leveled()
    requires if arm.holding then Dest(arm) != arm.claw else Source(arm) != arm.claw
    ensures Surplus(Turn(arm)) == Surplus(arm) && Owed(Turn(arm)) == Owed(arm)
    ensures Source(Turn(arm)) == Source(arm) && Dest(Turn(arm)) == Dest(arm)
    ensures
      var goal := if arm.holding then Dest(arm) else Source(arm);
      Dist(Turn(arm).claw, goal) == Dist(arm.claw, goal) - 1
  {
    SourceAndDest(arm);
    TurnConserves(arm);
  }

  lemma WalkByWidth(arm: Arm)
    requires arm.Valid() && !arm.Leveled()
    requires if arm.holding then Dest(arm) != arm.claw else Source(arm) != arm.claw
    ensures ProgressByWidth(arm, Turn(arm))
  {
    SourceAndDest(arm);
    WalkSpends(arm);
  }

  lemma WalkByTrips(arm: Arm)
    requires arm.Valid() && !arm.Leveled()
    requires if arm.holding then Dest(arm) != arm.claw else Source(arm) != arm.claw
    ensures ProgressByTrips(arm, Turn(arm))
  {
    SourceAndDest(arm);
    WalkSpends(arm);
    OwedAtLeast(arm, if Dest(arm) >= 0 then Dest(arm) else 0);
  }

  lemma PickByWidth(arm: Arm)
    requires arm.Valid() && !arm.holding && Source(arm) == arm.claw
    ensures ProgressByWidth(arm, Turn(arm))
  {
    SourceAndDest(arm);
    PickSpends(arm);
  }

  lemma PickByTrips(arm: Arm)
    requires arm.Valid() && !arm.holding && Source(arm) == arm.claw
    ensures ProgressByTrips(arm, Turn(arm))
  {
    SourceAndDest(arm);
    PickSpends(arm);
    OwedAtLeast(arm, Dest(arm));
  }

  lemma PlaceByWidth(arm: Arm)
    requires arm.Valid() && arm.holding && Dest(arm) == arm.claw
    ensures ProgressByWidth(arm, Turn(arm))
  {
    SourceAndDest(arm);
    PlaceSpends(arm);
    SourceAndDest(Turn(arm));
  }

  lemma PlaceByTrips(arm: Arm)
    requires arm.Valid() && arm.holding && Dest(arm) == arm.claw
    ensures ProgressByTrips(arm, Turn(arm))
  {
    SourceAndDest(arm);
    PlaceSpends(arm);
    OwedAtLeast(arm, Dest(arm));
    OwedAtLeast(Turn(arm), 0);
  }

  lemma TurnProgresses(arm: Arm)
    requires arm.Valid() && !arm.Leveled()
    ensures ProgressByWidth(arm, Turn(arm)) && ProgressByTrips(arm, Turn(arm))
  {
    if arm.holding && Dest(arm) == arm.claw {
      PlaceByWidth(arm);
      PlaceByTrips(arm);
    } else if !arm.holding && Source(arm) == arm.claw {
      PickByWidth(arm);
      PickByTrips(arm);
    } else {
      WalkByWidth(arm);
      WalkByTrips(arm);
    }
  }

  // Whole runs.

  /** The state after `k` turns, or earlier once leveled. */
  ghost function Run(arm: Arm, k: nat): (r: Arm)
    requires arm.Valid()
    ensures r.Valid()
    decreases k
  {
    if k == 0 || arm.Leveled() then arm else Run(Turn(arm), k - 1)
  }

  /** Through the whole run the number of boxes and the targets stay as they were. */
  lemma {:induction false} RunConserves(arm: Arm, k: nat)
    requires arm.Valid()
    ensures |Run(arm, k).boxes| == |arm.boxes|
    ensures Run(arm, k).Total() == arm.Total() && Run(arm, k).Targets() == arm.Targets()
    decreases k
  {
    if k > 0 && !arm.Leveled() {
      TurnConserves(arm);
      RunConserves(Turn(arm), k - 1);
    }
  }

  lemma MeasuresAreNatural(arm: Arm)
    requires arm.Valid()
    ensures ByWidth(arm) >= 0 && ByTrips(arm) >= 0
  {
    SourceAndDest(arm);
    if !arm.Leveled() {
      TurnProgresses(arm);
    }
  }

  lemma {:induction false} RunLevels(arm: Arm, k: nat)
    requires arm.Valid() && (ByWidth(arm) <= k || ByTrips(arm) <= k)
    ensures Run(arm, k).Leveled()
    decreases k
  {
    if !arm.Leveled() {
      TurnProgresses(arm);
      RunLevels(Turn(arm), k - 1);
    }
  }

  lemma WidthBound(arm: Arm)
    requires arm.Valid()
    ensures ByWidth(arm) <= Rounds(|arm.boxes|, Surplus(arm)) + if arm.holding then |arm.boxes| else 0
  {
    SourceAndDest(arm);
  }

  /** From any state the stacks are level after `2n` turns per box to move, and `n` more for a box
      already in the claw. */
  lemma LevelsWithinWidth(arm: Arm, n: nat, s: int, turns: int)
    requires arm.Valid() && n == |arm.boxes| && s == Surplus(arm)
    requires turns == 2 * n * s + if arm.holding then n else 0
    ensures turns >= 0 && Run(arm, turns).Leveled()
  {
    assert s >= 0 && ByWidth(arm) <= turns by {
      SourceAndDest(arm);
      WidthBound(arm);
      RoundsIsProduct(n, s);
    }
    MeasuresAreNatural(arm);
    RunLevels(arm, turns);
  }

  function Full(n: nat, i: nat): nat
    requires i < n
  {
    TargetsFor(16, n)[i]
  }

  /** The trips if every stack but `p` had to be filled from empty with 16 boxes in all. */
  function FullTrips(n: nat): (r: seq<int>)
    requires n > 0
    ensures |r| == n && forall i :: 0 <= i < n ==> r[i] == Full(n, i) * Trip(n, i)
  {
    seq(n, i requires 0 <= i < n => Full(n, i) * Trip(n, i))
  }

  lemma FullTripsSumFew(n: nat)
    requires 2 <= n <= 4
    ensures Sum(FullTrips(n)) <= 186
  {
    UpToEight(FullTrips(n));
    match n
    case 2 => assert FullTrips(2) == [32, 32];
    case 3 => assert FullTrips(3) == [36, 20, 30];
    case 4 => assert FullTrips(4) == [32, 24, 24, 32];
  }

  lemma FullTripsSumMore(n: nat)
    requires 5 <= n <= 7
    ensures Sum(FullTrips(n)) <= 186
  {
    UpToEight(FullTrips(n));
    match n
    case 5 => assert FullTrips(5) == [40, 24, 18, 24, 30];
    case 6 => assert FullTrips(6) == [36, 30, 24, 24, 20, 24];
    case 7 => assert FullTrips(7) == [42, 36, 20, 16, 20, 24, 28];
  }

  lemma FullTripsSumMost()
    ensures Sum(FullTrips(8)) == 208
  {
    UpToEight(FullTrips(8));
    assert FullTrips(8) == [32, 28, 24, 20, 20, 24, 28, 32];
  }

  function At(s: seq<int>, i: nat): int { if i < |s| then s[i] else 0 }

  lemma UpToEight(s: seq<int>)
    requires |s| <= 8
    ensures Sum(s) == At(s, 0) + At(s, 1) + At(s, 2) + At(s, 3) + At(s, 4) + At(s, 5) + At(s, 6) + At(s, 7)
  {
    FromPlace(s, 0);
    FromPlace(s, 1);
    FromPlace(s, 2);
    FromPlace(s, 3);
    FromPlace(s, 4);
    FromPlace(s, 5);
    FromPlace(s, 6);
    FromPlace(s, 7);
  }

  function SumFrom(s: seq<int>, i: nat): int { if i < |s| then Sum(s[i..]) else 0 }

  lemma FromPlace(s: seq<int>, i: nat)
    ensures SumFrom(s, i) == At(s, i) + SumFrom(s, i + 1)
    ensures i == 0 ==> SumFrom(s, i) == Sum(s)
  {
    if i < |s| {
      var rest := s[i..];
      assert rest[1..] == s[i + 1..] && rest[0] == s[i];
      assert Sum(rest) == s[i] + Sum(s[i + 1..]);
    }
    assert i == 0 ==> s[0..] == s;
  }

  lemma FullTripsAreBounded(n: nat, p: nat)
    requires 2 <= n <= 8 && p < n
    ensures n - 1 + Sum(FullTrips(n)) - FullTrips(n)[p] <= 195
  {
    if n <= 4 {
      FullTripsSumFew(n);
    } else if n <= 7 {
      FullTripsSumMore(n);
    } else {
      FullTripsSumMost();
    }
    Scaled(Full(n, p), Trip(n, p));
  }

  lemma TargetGrows(total: nat, n: nat, i: nat)
    requires 2 <= n <= 8 && total <= 16 && i < n
    ensures TargetsFor(total, n)[i] <= Full(n, i)
  {
    if n == 2 {} else if n == 3 {} else if n == 4 {} else if n == 5 {} else if n == 6 {} else if n == 7 {} else {}
  }

  lemma OwedIsBounded(arm: Arm)
    requires arm.Valid() && 2 <= |arm.boxes| <= 8 && arm.Total() <= 16 && Source(arm) >= 0
    ensures |arm.boxes| - 1 + Owed(arm) <= 195
  {
    var n, p, t := |arm.boxes|, Source(arm), arm.Targets();
    var f := FullTrips(n)[p := 0];
    SumUpdate(FullTrips(n), p, 0);
    FullTripsAreBounded(n, p);
    forall i | 0 <= i < n ensures Trips(arm.boxes, t)[i] <= f[i] {
      TargetGrows(arm.Total(), n, i);
      MulGrows(Excess(t[i], arm.boxes[i]), Full(n, i), Trip(n, i));
    }
    SumMonotone(Trips(arm.boxes, t), f);
  }

  lemma MulGrows(a: nat, b: nat, w: nat)
    requires a <= b
    ensures a * w <= b * w
  {
  }

  /** Under the stated limits, 2 to 8 stacks and up to 16 boxes, the run never needs its 200 turns. */
  lemma LevelsWithin200(arm: Arm)
    requires arm.Valid() && 2 <= |arm.boxes| <= 8 && arm.Total() <= 16
    ensures Run(arm, 195).Leveled() && Run(arm, 200).Leveled()
  {
    SourceAndDest(arm);
    if Source(arm) >= 0 {
      OwedIsBounded(arm);
    }
    RunLevels(arm, 195);
    RunLevels(arm, 200);
  }
}
