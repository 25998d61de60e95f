/** Whether the root of the sparse hash tree stands for what has been set: after two calls, exactly when it
    is the root of the row of all leaves with both values in their places. */
module SparseTruth {
  import opened BigEndian
  import opened MerklePaths
  import opened MerkleTerms
  import opened SparseMerkle
  import opened SparseProofs
  import opened SparseRoot

  /** All leaves after both calls, the later value winning where the keys spell the same place. */
  function BothLeaves(
    sha: HashFunction, depth: nat, k1: seq<Byte>, v1: seq<Byte>, k2: seq<Byte>, v2: seq<Byte>): (r: seq<Hash>)
    requires |k1| == |k2| == KeyLength(depth)
    ensures |r| == Pow2(depth) > 0
    ensures forall j :: 0 <= j < |r| ==>
      r[j] == if j == Index(depth, k2) then sha(v2) else if j == Index(depth, k1) then sha(v1) else sha([])
  {
    IndexBelow(depth, k2);
    Leaves(sha, depth, k1, v1)[Index(depth, k2) := sha(v2)]
  }

  // The path of a leaf that is replaced.

  lemma ParentsOfUpdate(sha: HashFunction, hs: seq<Hash>, n: nat, i: nat, x: Hash)
    requires |hs| == 2 * n && i < 2 * n
    ensures i / 2 < |Parents(sha, hs)|
    ensures Parents(sha, hs[i := x]) == Parents(sha, hs)[i / 2 := Climb(sha, x, StepAt(hs, i))]
  {
    var a, b := Parents(sha, hs[i := x]), Parents(sha, hs)[i / 2 := Climb(sha, x, StepAt(hs, i))];
    forall j | 0 <= j < n ensures a[j] == b[j] {
      assert hs[i := x][2 * j] == if i == 2 * j then x else hs[2 * j];
      assert hs[i := x][2 * j + 1] == if i == 2 * j + 1 then x else hs[2 * j + 1];
    }
  }

  // The path of one key in the row that holds the other's value.

  /** The place of a key's ancestor at a level. */
  function Place(depth: nat, key: seq<Byte>, level: nat): nat
    requires |key| == KeyLength(depth)
  {
    Halved(Index(depth, key), level)
  }

  /** The ancestors of the keys at `level` are the two children of one node. */
  predicate Beside(depth: nat, k1: seq<Byte>, k2: seq<Byte>, level: nat)
    requires |k1| == |k2| == KeyLength(depth)
  {
    Place(depth, k1, level) != Place(depth, k2, level) && Place(depth, k1, level + 1) == Place(depth, k2, level + 1)
  }

  function TrueStep(sha: HashFunction, depth: nat, k1: seq<Byte>, leaf: Hash, k2: seq<Byte>, level: nat): PathStep
    requires |k1| == |k2| == KeyLength(depth) && level < depth
  {
    PathStep(
      if Beside(depth, k1, k2, level) then HashAt(sha, depth, k1, leaf, level) else DefaultHash(sha, level),
      !Right(depth, k2, level))
  }

  function TrueSteps(sha: HashFunction, depth: nat, k1: seq<Byte>, leaf: Hash, k2: seq<Byte>): (r: seq<PathStep>)
    requires |k1| == |k2| == KeyLength(depth)
    ensures |r| == depth && forall l :: 0 <= l < depth ==> r[l] == TrueStep(sha, depth, k1, leaf, k2, l)
  {
    seq(depth, l requires 0 <= l < depth => TrueStep(sha, depth, k1, leaf, k2, l))
  }

  lemma PlaceAbove(depth: nat, key: seq<Byte>, level: nat)
    requires |key| == KeyLength(depth) && level < depth
    ensures Place(depth, key, level) == 2 * Place(depth, key, level + 1) + if Right(depth, key, level) then 1 else 0
  {
    HalvedMore(Index(depth, key), level);
    TurnSpellsIndex(depth, key, level);
  }

  lemma PlaceBelow(depth: nat, key: seq<Byte>, level: nat)
    requires |key| == KeyLength(depth) && level <= depth
    ensures Place(depth, key, level) < Pow2(depth - level)
  {
    IndexBelow(depth, key);
    HalvedBelow(Index(depth, key), level, depth - level);
  }

  lemma StepInRow(n: nat, i: nat, x: Hash, d: Hash, j: nat)
    requires i < 2 * n && j < 2 * n
    ensures StepAt(Row(2 * n, i, x, d), j) == PathStep(if i != j && i / 2 == j / 2 then x else d, j % 2 == 0)
  {
  }

  lemma TrueStepIsStep(sha: HashFunction, depth: nat, k1: seq<Byte>, leaf: Hash, k2: seq<Byte>, level: nat)
    requires |k1| == |k2| == KeyLength(depth) && level < depth
    ensures Place(depth, k2, level) < |RowAt(sha, depth, k1, leaf, level)|
    ensures StepAt(RowAt(sha, depth, k1, leaf, level), Place(depth, k2, level)) == TrueStep(sha, depth, k1, leaf, k2, level)
  {
    var n := Pow2(depth - level - 1);
    var i, j := Place(depth, k1, level), Place(depth, k2, level);
    PlaceBelow(depth, k1, level);
    PlaceBelow(depth, k2, level);
    HalvedMore(Index(depth, k1), level);
    HalvedMore(Index(depth, k2), level);
    TurnSpellsIndex(depth, k2, level);
    StepInRow(n, i, HashAt(sha, depth, k1, leaf, level), DefaultHash(sha, level), j);
  }

  /** The row at a level once the second key has its hash there as well. */
  function UpdatedRow(
    sha: HashFunction, depth: nat, k1: seq<Byte>, leaf: Hash, k2: seq<Byte>, x: Hash, level: nat): seq<Hash>
    requires |k1| == |k2| == KeyLength(depth) && level <= depth
  {
    PlaceBelow(depth, k2, level);
    RowAt(sha, depth, k1, leaf, level)[Place(depth, k2, level) := Fold(sha, x, TrueSteps(sha, depth, k1, leaf, k2)[..level])]
  }

  lemma UpdatedAbove(
    sha: HashFunction, row: seq<Hash>, above: seq<Hash>, i: nat, up: nat, step: PathStep, x: Hash, y: Hash, n: nat)
    requires |row| == 2 * n && above == Parents(sha, row) && i < |row| && up == i / 2
    requires StepAt(row, i) == step && y == Climb(sha, x, step)
    ensures up < |above| && Parents(sha, row[i := x]) == above[up := y]
  {
    ParentsOfUpdate(sha, row, n, i, x);
  }

  lemma UpdatedRowAbove(
    sha: HashFunction, depth: nat, k1: seq<Byte>, leaf: Hash, k2: seq<Byte>, x: Hash, level: nat)
    requires |k1| == |k2| == KeyLength(depth) && level < depth
    ensures |UpdatedRow(sha, depth, k1, leaf, k2, x, level)| > 1
    ensures UpdatedRow(sha, depth, k1, leaf, k2, x, level + 1) == Parents(sha, UpdatedRow(sha, depth, k1, leaf, k2, x, level))
  {
    var steps := TrueSteps(sha, depth, k1, leaf, k2);
    var n := Pow2(depth - level - 1);
    RowAbove(sha, depth, k1, leaf, level);
    TrueStepIsStep(sha, depth, k1, leaf, k2, level);
    HalvedMore(Index(depth, k2), level);
    FoldLast(sha, x, steps, level);
    UpdatedAbove(
      sha, RowAt(sha, depth, k1, leaf, level), RowAt(sha, depth, k1, leaf, level + 1), Place(depth, k2, level),
      Place(depth, k2, level + 1), steps[level], Fold(sha, x, steps[..level]), Fold(sha, x, steps[..level + 1]), n);
  }

  lemma UpdatedRowPairsUp(
    sha: HashFunction, depth: nat, k1: seq<Byte>, leaf: Hash, k2: seq<Byte>, x: Hash, rows: seq<seq<Hash>>, l: nat)
    requires |k1| == |k2| == KeyLength(depth) && l < depth && |rows| == depth + 1
    requires rows[l] == UpdatedRow(sha, depth, k1, leaf, k2, x, l)
    requires rows[l + 1] == UpdatedRow(sha, depth, k1, leaf, k2, x, l + 1)
    ensures PairsUp(sha, rows, l)
  {
    UpdatedRowAbove(sha, depth, k1, leaf, k2, x, l);
  }

  lemma UpdatedRows(sha: HashFunction, depth: nat, k1: seq<Byte>, leaf: Hash, k2: seq<Byte>, x: Hash)
    returns (rows: seq<seq<Hash>>)
    requires |k1| == |k2| == KeyLength(depth)
    ensures |rows| == depth + 1 && forall l: nat :: l < depth ==> PairsUp(sha, rows, l)
    ensures rows[0] == UpdatedRow(sha, depth, k1, leaf, k2, x, 0)
    ensures rows[depth] == UpdatedRow(sha, depth, k1, leaf, k2, x, depth)
  {
    rows := seq(depth + 1, l requires 0 <= l <= depth => UpdatedRow(sha, depth, k1, leaf, k2, x, l));
    forall l: nat | l < depth ensures PairsUp(sha, rows, l) {
      UpdatedRowPairsUp(sha, depth, k1, leaf, k2, x, rows, l);
    }
  }

  lemma UpdatedTop(sha: HashFunction, depth: nat, k1: seq<Byte>, leaf: Hash, k2: seq<Byte>, x: Hash)
    requires |k1| == |k2| == KeyLength(depth)
    ensures UpdatedRow(sha, depth, k1, leaf, k2, x, depth) == [Fold(sha, x, TrueSteps(sha, depth, k1, leaf, k2))]
  {
    var steps := TrueSteps(sha, depth, k1, leaf, k2);
    assert steps[..depth] == steps;
    TopRow(sha, depth, k1, leaf);
    PlaceBelow(depth, k2, depth);
  }

  lemma UpdatedBottom(sha: HashFunction, depth: nat, k1: seq<Byte>, v1: seq<Byte>, k2: seq<Byte>, v2: seq<Byte>)
    requires |k1| == |k2| == KeyLength(depth)
    ensures UpdatedRow(sha, depth, k1, sha(v1), k2, sha(v2), 0) == BothLeaves(sha, depth, k1, v1, k2, v2)
  {
    IndexBelow(depth, k2);
    assert EmptySteps(sha, depth, k1)[..0] == [];
    assert TrueSteps(sha, depth, k1, sha(v1), k2)[..0] == [];
    assert RowAt(sha, depth, k1, sha(v1), 0) == Leaves(sha, depth, k1, v1);
  }

  /** The root with both values in place is what the second leaf's true path leads to. */
  lemma TrueRoot(sha: HashFunction, depth: nat, k1: seq<Byte>, v1: seq<Byte>, k2: seq<Byte>, v2: seq<Byte>)
    requires |k1| == |k2| == KeyLength(depth)
    ensures Root(sha, BothLeaves(sha, depth, k1, v1, k2, v2))
      == Fold(sha, sha(v2), TrueSteps(sha, depth, k1, sha(v1), k2))
  {
    var rows := UpdatedRows(sha, depth, k1, sha(v1), k2, sha(v2));
    UpdatedTop(sha, depth, k1, sha(v1), k2, sha(v2));
    UpdatedBottom(sha, depth, k1, v1, k2, v2);
    RootOfRows(sha, rows, rows[0], rows[depth], Fold(sha, sha(v2), TrueSteps(sha, depth, k1, sha(v1), k2)));
  }

  // Where the two keys' paths come together.

  lemma {:induction false} SamePlace(depth: nat, k1: seq<Byte>, k2: seq<Byte>, level: nat)
    requires |k1| == |k2| == KeyLength(depth) && level <= depth
    requires forall l: nat :: level <= l < depth ==> Right(depth, k1, l) == Right(depth, k2, l)
    ensures Place(depth, k1, level) == Place(depth, k2, level)
    decreases depth - level
  {
    if level < depth {
      SamePlace(depth, k1, k2, level + 1);
      PlaceAbove(depth, k1, level);
      PlaceAbove(depth, k2, level);
    } else {
      PlaceBelow(depth, k1, depth);
      PlaceBelow(depth, k2, depth);
    }
  }

  lemma {:induction false} SamePlaceAbove(depth: nat, k1: seq<Byte>, k2: seq<Byte>, l: nat, m: nat)
    requires |k1| == |k2| == KeyLength(depth) && l <= m && Place(depth, k1, l) == Place(depth, k2, l)
    ensures Place(depth, k1, m) == Place(depth, k2, m)
    decreases m
  {
    if l < m {
      SamePlaceAbove(depth, k1, k2, l, m - 1);
      HalvedMore(Index(depth, k1), m - 1);
      HalvedMore(Index(depth, k2), m - 1);
    }
  }

  /** Two keys are beside each other at one level at most. */
  lemma BesideOnce(depth: nat, k1: seq<Byte>, k2: seq<Byte>, l: nat, m: nat)
    requires |k1| == |k2| == KeyLength(depth) && Beside(depth, k1, k2, l) && Beside(depth, k1, k2, m)
    ensures l == m
  {
    if l < m {
      SamePlaceAbove(depth, k1, k2, l + 1, m);
    } else if m < l {
      SamePlaceAbove(depth, k1, k2, m + 1, l);
    }
  }

  /** Keys that spell different places are beside each other at some level. */
  lemma {:induction false} SomewhereBeside(depth: nat, k1: seq<Byte>, k2: seq<Byte>, level: nat) returns (at: nat)
    requires |k1| == |k2| == KeyLength(depth) && level <= depth && Place(depth, k1, level) != Place(depth, k2, level)
    ensures at < depth && Beside(depth, k1, k2, at)
    decreases depth - level
  {
    if level < depth {
      if Place(depth, k1, level + 1) == Place(depth, k2, level + 1) {
        at := level;
      } else {
        at := SomewhereBeside(depth, k1, k2, level + 1);
      }
    } else {
      PlaceBelow(depth, k1, depth);
      PlaceBelow(depth, k2, depth);
      assert false;
    }
  }

  lemma SiblingsBeside(depth: nat, k1: seq<Byte>, k2: seq<Byte>, pos: nat)
    requires |k1| == |k2| == KeyLength(depth) && pos < depth && k2 == Flip(k1, pos)
    ensures Beside(depth, k1, k2, depth - 1 - pos)
  {
    var level := depth - 1 - pos;
    forall l: nat | level + 1 <= l < depth ensures Right(depth, k1, l) == Right(depth, k2, l) {
      FlipTurnsOne(k1, pos, depth - 1 - l);
    }
    SamePlace(depth, k1, k2, level + 1);
    FlipTurnsOne(k1, pos, pos);
    PlaceAbove(depth, k1, level);
    PlaceAbove(depth, k2, level);
  }

  // The root after two calls.

  lemma StepBesideSibling(
    sha: HashFunction, depth: nat, k1: seq<Byte>, v1: seq<Byte>, k2: seq<Byte>, n1: Nodes, r1: Hash, pos: nat)
    requires |k1| == |k2| == KeyLength(depth) && pos < depth && k2 == Flip(k1, pos)
    requires Written(sha, depth, map[], n1, k1, v1, r1)
    ensures
      var level := depth - 1 - pos;
      ProofStep(sha, n1, depth, k2, level).sibling == HashAt(sha, depth, k1, sha(v1), level)
  {
    var level := depth - 1 - pos;
    FlipTwice(k1, pos);
    assert NodeHash(sha, n1, level, k1) == Fold(sha, sha(v1), EmptySteps(sha, depth, k1)[..level]);
  }

  lemma StepAwayFromSibling(
    sha: HashFunction, depth: nat, k1: seq<Byte>, k2: seq<Byte>, n1: Nodes, pos: nat, level: nat)
    requires |k1| == |k2| == KeyLength(depth) && pos < depth && k2 == Flip(k1, pos)
    requires SameElsewhere(n1, map[], k1) && level < depth && level != depth - 1 - pos
    ensures ProofStep(sha, n1, depth, k2, level).sibling == DefaultHash(sha, level)
  {
    OtherSibling(depth, k1, k2, pos, depth - 1 - level);
    UntouchedIsDefault(sha, n1, k1, Flip(k2, depth - 1 - level), level);
  }

  lemma BesideAtSibling(depth: nat, k1: seq<Byte>, k2: seq<Byte>, pos: nat, level: nat)
    requires |k1| == |k2| == KeyLength(depth) && pos < depth && k2 == Flip(k1, pos)
    ensures Beside(depth, k1, k2, level) <==> level == depth - 1 - pos
  {
    SiblingsBeside(depth, k1, k2, pos);
    if Beside(depth, k1, k2, level) {
      BesideOnce(depth, k1, k2, level, depth - 1 - pos);
    }
  }

  lemma SiblingStepIsTrue(
    sha: HashFunction, depth: nat, k1: seq<Byte>, v1: seq<Byte>, k2: seq<Byte>, n1: Nodes, r1: Hash, pos: nat, level: nat)
    requires |k1| == |k2| == KeyLength(depth) && pos < depth && k2 == Flip(k1, pos) && level < depth
    requires Written(sha, depth, map[], n1, k1, v1, r1)
    ensures ProofStep(sha, n1, depth, k2, level) == TrueStep(sha, depth, k1, sha(v1), k2, level)
  {
    BesideAtSibling(depth, k1, k2, pos, level);
    if level == depth - 1 - pos {
      StepBesideSibling(sha, depth, k1, v1, k2, n1, r1, pos);
    } else {
      StepAwayFromSibling(sha, depth, k1, k2, n1, pos, level);
    }
  }

  lemma OtherSibling(depth: nat, k1: seq<Byte>, k2: seq<Byte>, pos: nat, at: nat)
    requires |k1| == |k2| == KeyLength(depth) && pos < depth && at < depth && at != pos && k2 == Flip(k1, pos)
    ensures Flip(k2, at) != k1
  {
    FlipTurnsOne(k1, pos, at);
    FlipTurnsOne(k2, at, at);
  }

  /** Siblings: the second call sees the first, and the root is the true one. */
  lemma SiblingsTrue(
    sha: HashFunction, depth: nat, k1: seq<Byte>, v1: seq<Byte>, k2: seq<Byte>, v2: seq<Byte>,
    n1: Nodes, r1: Hash, n2: Nodes, r2: Hash, pos: nat)
    requires |k1| == |k2| == KeyLength(depth) && pos < depth && k2 == Flip(k1, pos)
    requires Written(sha, depth, map[], n1, k1, v1, r1) && Written(sha, depth, n1, n2, k2, v2, r2)
    ensures r2 == Root(sha, BothLeaves(sha, depth, k1, v1, k2, v2))
  {
    forall l: nat | l < depth
      ensures ProofSteps(sha, n1, depth, k2)[l] == TrueSteps(sha, depth, k1, sha(v1), k2)[l]
    {
      SiblingStepIsTrue(sha, depth, k1, v1, k2, n1, r1, pos, l);
    }
    assert ProofSteps(sha, n1, depth, k2) == TrueSteps(sha, depth, k1, sha(v1), k2);
    TrueRoot(sha, depth, k1, v1, k2, v2);
  }

  lemma StepsOfEmpty(sha: HashFunction, depth: nat, k1: seq<Byte>, leaf: Hash, k2: seq<Byte>)
    requires |k1| == |k2| == KeyLength(depth)
    requires forall l: nat :: l < depth && Beside(depth, k1, k2, l) ==> HashAt(sha, depth, k1, leaf, l) == DefaultHash(sha, l)
    ensures TrueSteps(sha, depth, k1, leaf, k2) == EmptySteps(sha, depth, k2)
  {
    forall l: nat | l < depth ensures TrueSteps(sha, depth, k1, leaf, k2)[l] == EmptySteps(sha, depth, k2)[l] {
      EmptyStepAt(sha, depth, k2, l);
    }
  }

  /** Everything hashed for the two calls and for the true root. */
  ghost function HashedForTruth(
    sha: HashFunction, depth: nat, k1: seq<Byte>, v1: seq<Byte>, k2: seq<Byte>, v2: seq<Byte>): set<seq<Byte>>
    requires |k1| == |k2| == KeyLength(depth)
  {
    HashedFor(sha, depth, k1, v1, k2, v2) + Inputs(sha, sha(v2), TrueSteps(sha, depth, k1, sha(v1), k2))
  }

  lemma StepsAreDigests(sha: HashFunction, depth: nat, k1: seq<Byte>, leaf: Hash, k2: seq<Byte>)
    requires Digests(sha) && |k1| == |k2| == KeyLength(depth) && |leaf| == 32
    ensures DigestSized(TrueSteps(sha, depth, k1, leaf, k2)) && DigestSized(EmptySteps(sha, depth, k2))
    ensures SameTurns(TrueSteps(sha, depth, k1, leaf, k2), EmptySteps(sha, depth, k2))
  {
    forall l: nat | l < depth
      ensures |TrueSteps(sha, depth, k1, leaf, k2)[l].sibling| == 32 && |EmptySteps(sha, depth, k2)[l].sibling| == 32
      ensures EmptySteps(sha, depth, k2)[l].siblingIsRight == !Right(depth, k2, l)
    {
      HashSizes(sha, depth, k1, leaf, l);
      EmptyStepAt(sha, depth, k2, l);
    }
  }

  /** Keys that are not siblings but spell different places: the second call does not see the first. */
  lemma ApartTrue(
    sha: HashFunction, depth: nat, k1: seq<Byte>, v1: seq<Byte>, k2: seq<Byte>, v2: seq<Byte>, at: nat)
    requires Digests(sha) && |k1| == |k2| == KeyLength(depth) && at < depth && Beside(depth, k1, k2, at)
    requires CollisionFree(sha, HashedForTruth(sha, depth, k1, v1, k2, v2))
    ensures Fold(sha, sha(v2), EmptySteps(sha, depth, k2)) == Fold(sha, sha(v2), TrueSteps(sha, depth, k1, sha(v1), k2))
      <==> sha(v1) == sha([])
  {
    var p, q := TrueSteps(sha, depth, k1, sha(v1), k2), EmptySteps(sha, depth, k2);
    var xs := HashedForTruth(sha, depth, k1, v1, k2, v2);
    OnlyEmptyIsDefault(sha, xs, depth, k1, sha(v1), at);
    if sha(v1) == sha([]) {
      forall l: nat | l < depth && Beside(depth, k1, k2, l)
        ensures HashAt(sha, depth, k1, sha(v1), l) == DefaultHash(sha, l)
      {
        BesideOnce(depth, k1, k2, l, at);
      }
      StepsOfEmpty(sha, depth, k1, sha(v1), k2);
    }
    if Fold(sha, sha(v2), q) == Fold(sha, sha(v2), p) {
      StepsAreDigests(sha, depth, k1, sha(v1), k2);
      PathIsBinding(sha, sha(v2), p, sha(v2), q);
      EmptyStepAt(sha, depth, k2, at);
      assert p[at] == q[at];
    }
  }

  /** Keys that are not siblings: the root is as if the first call had never been made. */
  lemma FirstIsForgotten(
    sha: HashFunction, depth: nat, k1: seq<Byte>, v1: seq<Byte>, k2: seq<Byte>, v2: seq<Byte>,
    n1: Nodes, r1: Hash, n2: Nodes, r2: Hash)
    requires |k1| == |k2| == KeyLength(depth) && !Siblings(depth, k1, k2)
    requires Written(sha, depth, map[], n1, k1, v1, r1) && Written(sha, depth, n1, n2, k2, v2, r2)
    ensures r2 == Root(sha, Leaves(sha, depth, k2, v2))
  {
    if k1 == k2 {
      SameSteps(sha, n1, map[], depth, k2);
    } else {
      AllStepsApart(sha, depth, k1, k2, n1, n2);
    }
    LonelyRoot(sha, depth, k2, v2);
  }

  /** The root after two calls stands for both values exactly if the keys are siblings, or spell the same
      place, or the first value hashes like an empty leaf. */
  lemma RootIsTrueExactly(
    sha: HashFunction, depth: nat, k1: seq<Byte>, v1: seq<Byte>, k2: seq<Byte>, v2: seq<Byte>,
    n1: Nodes, r1: Hash, n2: Nodes, r2: Hash)
    requires Digests(sha) && |k1| == |k2| == KeyLength(depth)
    requires CollisionFree(sha, HashedForTruth(sha, depth, k1, v1, k2, v2))
    requires Written(sha, depth, map[], n1, k1, v1, r1) && Written(sha, depth, n1, n2, k2, v2, r2)
    ensures r2 == Root(sha, BothLeaves(sha, depth, k1, v1, k2, v2)) <==>
      Siblings(depth, k1, k2) || Index(depth, k1) == Index(depth, k2) || sha(v1) == sha([])
  {
    if Siblings(depth, k1, k2) {
      var pos: nat :| pos < depth && k2 == Flip(k1, pos);
      SiblingsTrue(sha, depth, k1, v1, k2, v2, n1, r1, n2, r2, pos);
    } else {
      FirstIsForgotten(sha, depth, k1, v1, k2, v2, n1, r1, n2, r2);
      TrueRoot(sha, depth, k1, v1, k2, v2);
      LonelyRoot(sha, depth, k2, v2);
      if Index(depth, k1) == Index(depth, k2) {
        assert BothLeaves(sha, depth, k1, v1, k2, v2) == Leaves(sha, depth, k2, v2);
      } else {
        var at := SomewhereBeside(depth, k1, k2, 0);
        ApartTrue(sha, depth, k1, v1, k2, v2, at);
      }
    }
  }

  /** The same with a tree in use, whatever the hash function: siblings are both in the root, and otherwise
      only the second value is. */
  method SetTwice(sha: HashFunction, depth: nat, k1: seq<Byte>, v1: seq<Byte>, k2: seq<Byte>, v2: seq<Byte>)
    returns (root: Hash)
    requires |k1| == |k2| == KeyLength(depth)
    ensures root == Root(sha,
      if Siblings(depth, k1, k2) then BothLeaves(sha, depth, k1, v1, k2, v2) else Leaves(sha, depth, k2, v2))
  {
    var t := new SparseMerkleTree(sha, depth);
    var err := t.Set(sha, Some(k1), v1);
    ghost var n1, r1 := t.nodes, t.root;
    err := t.Set(sha, Some(k2), v2);
    root := t.root;
    if Siblings(depth, k1, k2) {
      ghost var pos: nat :| pos < depth && k2 == Flip(k1, pos);
      SiblingsTrue(sha, depth, k1, v1, k2, v2, n1, r1, t.nodes, root, pos);
    } else {
      FirstIsForgotten(sha, depth, k1, v1, k2, v2, n1, r1, t.nodes, root);
    }
  }
}
