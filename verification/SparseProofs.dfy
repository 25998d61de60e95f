/** Proofs of keys set earlier in the sparse hash tree of data-structures/merkle.go. Inner nodes are
    addressed by the full leaf key, so two keys below one inner node do not share its hash. This says
    exactly when the proof of a key still verifies after another key has been set, and that this is
    also exactly when the order of the two calls does not matter for the root. */
module SparseProofs {
  import opened BigEndian
  import opened MerklePaths
  import opened SparseMerkle

  /** The keys take the same turns in a tree of this depth. */
  predicate SameBits(depth: nat, k1: seq<Byte>, k2: seq<Byte>)
    requires |k1| == |k2| == KeyLength(depth)
  {
    forall pos: nat :: pos < depth ==> IsRightChild(k1, pos) == IsRightChild(k2, pos)
  }

  /** `k2` is `k1` with one bit flipped that the tree uses. */
  predicate Siblings(depth: nat, k1: seq<Byte>, k2: seq<Byte>)
    requires |k1| == |k2| == KeyLength(depth)
  {
    exists pos: nat :: pos < depth && k2 == Flip(k1, pos)
  }

  /** The proof of `k1` survives setting `k2`: the keys are siblings at some level, or they take the same
      turns with equal leaf hashes, or both values hash like an empty leaf. */
  predicate Survives(sha: HashFunction, depth: nat, k1: seq<Byte>, v1: seq<Byte>, k2: seq<Byte>, v2: seq<Byte>)
    requires |k1| == |k2| == KeyLength(depth)
  {
    || Siblings(depth, k1, k2)
    || (SameBits(depth, k1, k2) && sha(v1) == sha(v2))
    || sha(v1) == sha(v2) == sha([])
  }

  /** Whether the path of `key` comes from the right at `level`. */
  function Right(depth: nat, key: seq<Byte>, level: nat): bool
    requires |key| == KeyLength(depth) && level < depth
  {
    IsRightChild(key, depth - 1 - level)
  }

  function EmptySteps(sha: HashFunction, depth: nat, key: seq<Byte>): seq<PathStep>
    requires |key| == KeyLength(depth)
  {
    ProofSteps(sha, map[], depth, key)
  }

  lemma EmptyStepAt(sha: HashFunction, depth: nat, key: seq<Byte>, i: nat)
    requires |key| == KeyLength(depth) && i < depth
    ensures EmptySteps(sha, depth, key)[i] == PathStep(DefaultHash(sha, i), !Right(depth, key, i))
  {
  }

  /** What is hashed to make the default hashes. */
  function Doubled(sha: HashFunction, i: nat): seq<Byte> { DefaultHash(sha, i) + DefaultHash(sha, i) }

  function Doubles(sha: HashFunction, depth: nat): set<seq<Byte>> {
    set i: nat | i < depth :: Doubled(sha, i)
  }

  /** The strings hashed for the default hashes and along both keys' paths in an otherwise empty tree. */
  ghost function HashedFor(
    sha: HashFunction, depth: nat, k1: seq<Byte>, v1: seq<Byte>, k2: seq<Byte>, v2: seq<Byte>): set<seq<Byte>>
    requires |k1| == |k2| == KeyLength(depth)
  {
    Doubles(sha, depth)
    + Inputs(sha, sha(v1), EmptySteps(sha, depth, k1)) + Inputs(sha, sha(v2), EmptySteps(sha, depth, k2))
  }

  // Hashes on the way up an otherwise empty tree.

  function HashAt(sha: HashFunction, depth: nat, key: seq<Byte>, leaf: Hash, i: nat): Hash
    requires |key| == KeyLength(depth) && i <= depth
  {
    Fold(sha, leaf, EmptySteps(sha, depth, key)[..i])
  }

  lemma HashAbove(sha: HashFunction, depth: nat, key: seq<Byte>, leaf: Hash, i: nat)
    requires |key| == KeyLength(depth) && i < depth
    ensures
      var step := PathStep(DefaultHash(sha, i), !Right(depth, key, i));
      && HashAt(sha, depth, key, leaf, i + 1) == Climb(sha, HashAt(sha, depth, key, leaf, i), step)
      && Input(HashAt(sha, depth, key, leaf, i), step) in Inputs(sha, leaf, EmptySteps(sha, depth, key))
  {
    FoldLast(sha, leaf, EmptySteps(sha, depth, key), i);
    InputAt(sha, leaf, EmptySteps(sha, depth, key), i);
    EmptyStepAt(sha, depth, key, i);
  }

  lemma {:induction false} HashSizes(sha: HashFunction, depth: nat, key: seq<Byte>, leaf: Hash, i: nat)
    requires Digests(sha) && |key| == KeyLength(depth) && i <= depth && |leaf| == 32
    ensures |HashAt(sha, depth, key, leaf, i)| == |DefaultHash(sha, i)| == 32
  {
    if i > 0 {
      HashAbove(sha, depth, key, leaf, i - 1);
    }
  }

  lemma ParentOfDefault(sha: HashFunction, xs: set<seq<Byte>>, x: Hash, d: Hash, right: bool)
    requires CollisionFree(sha, xs) && Input(x, PathStep(d, right)) in xs && d + d in xs && |x| == |d|
    ensures Climb(sha, x, PathStep(d, right)) == HashPair(sha, d, d) <==> x == d
  {
    if Climb(sha, x, PathStep(d, right)) == HashPair(sha, d, d) {
      if right { SameSplit(x, d, d, d); } else { SameSplit(d, x, d, d); }
    }
  }

  lemma EmptyAbove(sha: HashFunction, xs: set<seq<Byte>>, depth: nat, key: seq<Byte>, leaf: Hash, j: nat)
    requires Digests(sha) && |key| == KeyLength(depth) && j < depth && |leaf| == 32
    requires CollisionFree(sha, xs) && Doubles(sha, depth) + Inputs(sha, leaf, EmptySteps(sha, depth, key)) <= xs
    ensures HashAt(sha, depth, key, leaf, j + 1) == DefaultHash(sha, j + 1) <==>
      HashAt(sha, depth, key, leaf, j) == DefaultHash(sha, j)
  {
    HashAbove(sha, depth, key, leaf, j);
    HashSizes(sha, depth, key, leaf, j);
    assert Doubled(sha, j) in Doubles(sha, depth);
    ParentOfDefault(sha, xs, HashAt(sha, depth, key, leaf, j), DefaultHash(sha, j), !Right(depth, key, j));
  }

  /** Only a leaf that hashes like an empty one leads to a default hash. */
  lemma {:induction false} OnlyEmptyIsDefault(
    sha: HashFunction, xs: set<seq<Byte>>, depth: nat, key: seq<Byte>, leaf: Hash, i: nat)
    requires Digests(sha) && |key| == KeyLength(depth) && i <= depth && |leaf| == 32
    requires CollisionFree(sha, xs) && Doubles(sha, depth) + Inputs(sha, leaf, EmptySteps(sha, depth, key)) <= xs
    ensures HashAt(sha, depth, key, leaf, i) == DefaultHash(sha, i) <==> leaf == sha([])
  {
    if i > 0 {
      OnlyEmptyIsDefault(sha, xs, depth, key, leaf, i - 1);
      EmptyAbove(sha, xs, depth, key, leaf, i - 1);
    }
  }

  /** Below level `i` the keys take the same turns. */
  predicate SameBelow(depth: nat, k1: seq<Byte>, k2: seq<Byte>, i: nat)
    requires |k1| == |k2| == KeyLength(depth) && i <= depth
  {
    forall l: nat :: l < i ==> Right(depth, k1, l) == Right(depth, k2, l)
  }

  lemma MeetAbove(sha: HashFunction, xs: set<seq<Byte>>, x: Hash, y: Hash, d: Hash, r1: bool, r2: bool)
    requires CollisionFree(sha, xs) && Input(x, PathStep(d, r1)) in xs && Input(y, PathStep(d, r2)) in xs
    requires |x| == |y| == |d| == 32
    ensures Climb(sha, x, PathStep(d, r1)) == Climb(sha, y, PathStep(d, r2)) <==>
      if r1 == r2 then x == y else x == d && y == d
  {
    if Climb(sha, x, PathStep(d, r1)) == Climb(sha, y, PathStep(d, r2)) {
      if r1 && r2 { SameSplit(x, d, y, d); }
      else if r1 { SameSplit(x, d, d, y); }
      else if r2 { SameSplit(d, x, y, d); }
      else { SameSplit(d, x, d, y); }
    }
  }

  /** Two paths meet at level `i` exactly if they are one path so far or both are empty. */
  lemma {:induction false} PathsMeet(
    sha: HashFunction, xs: set<seq<Byte>>, depth: nat, k1: seq<Byte>, a1: Hash, k2: seq<Byte>, a2: Hash, i: nat)
    requires Digests(sha) && |k1| == |k2| == KeyLength(depth) && i <= depth && |a1| == |a2| == 32
    requires CollisionFree(sha, xs) && Doubles(sha, depth) <= xs
    requires Inputs(sha, a1, EmptySteps(sha, depth, k1)) + Inputs(sha, a2, EmptySteps(sha, depth, k2)) <= xs
    ensures HashAt(sha, depth, k1, a1, i) == HashAt(sha, depth, k2, a2, i) <==>
      (SameBelow(depth, k1, k2, i) && a1 == a2) || a1 == a2 == sha([])
  {
    if i > 0 {
      PathsMeet(sha, xs, depth, k1, a1, k2, a2, i - 1);
      OnlyEmptyIsDefault(sha, xs, depth, k1, a1, i - 1);
      OnlyEmptyIsDefault(sha, xs, depth, k2, a2, i - 1);
      MeetAt(sha, xs, depth, k1, a1, k2, a2, i - 1);
      SameBelowMore(depth, k1, k2, i - 1);
    }
  }

  lemma MeetAt(
    sha: HashFunction, xs: set<seq<Byte>>, depth: nat, k1: seq<Byte>, a1: Hash, k2: seq<Byte>, a2: Hash, j: nat)
    requires Digests(sha) && |k1| == |k2| == KeyLength(depth) && j < depth && |a1| == |a2| == 32
    requires CollisionFree(sha, xs)
    requires Inputs(sha, a1, EmptySteps(sha, depth, k1)) + Inputs(sha, a2, EmptySteps(sha, depth, k2)) <= xs
    ensures
      var x, y, d := HashAt(sha, depth, k1, a1, j), HashAt(sha, depth, k2, a2, j), DefaultHash(sha, j);
      HashAt(sha, depth, k1, a1, j + 1) == HashAt(sha, depth, k2, a2, j + 1) <==>
        if Right(depth, k1, j) == Right(depth, k2, j) then x == y else x == d && y == d
  {
    HashAbove(sha, depth, k1, a1, j);
    HashAbove(sha, depth, k2, a2, j);
    HashSizes(sha, depth, k1, a1, j);
    HashSizes(sha, depth, k2, a2, j);
    MeetAbove(
      sha, xs, HashAt(sha, depth, k1, a1, j), HashAt(sha, depth, k2, a2, j), DefaultHash(sha, j),
      !Right(depth, k1, j), !Right(depth, k2, j));
  }

  lemma SameBelowMore(depth: nat, k1: seq<Byte>, k2: seq<Byte>, j: nat)
    requires |k1| == |k2| == KeyLength(depth) && j < depth
    ensures SameBelow(depth, k1, k2, j + 1) <==>
      SameBelow(depth, k1, k2, j) && Right(depth, k1, j) == Right(depth, k2, j)
  {
  }

  lemma SameBelowAll(depth: nat, k1: seq<Byte>, k2: seq<Byte>)
    requires |k1| == |k2| == KeyLength(depth)
    ensures SameBelow(depth, k1, k2, depth) <==> SameBits(depth, k1, k2)
  {
    if SameBelow(depth, k1, k2, depth) {
      forall pos: nat | pos < depth ensures IsRightChild(k1, pos) == IsRightChild(k2, pos) {
        assert Right(depth, k1, depth - 1 - pos) == Right(depth, k2, depth - 1 - pos);
      }
    }
  }

  // The tree after setting `k1` and then `k2`.

  lemma UntouchedIsDefault(sha: HashFunction, nodes: Nodes, key: seq<Byte>, k: seq<Byte>, level: nat)
    requires SameElsewhere(nodes, map[], key) && |k| == |key| && k != key
    ensures NodeHash(sha, nodes, level, k) == DefaultHash(sha, level)
  {
    assert Address(level, k) !in nodes;
  }

  lemma KeptOf(sha: HashFunction, n1: Nodes, n2: Nodes, k2: seq<Byte>, k: seq<Byte>, level: nat)
    requires SameElsewhere(n2, n1, k2) && |k| == |k2| && k != k2
    ensures NodeHash(sha, n2, level, k) == NodeHash(sha, n1, level, k)
  {
    assert Address(level, k) in n2 <==> Address(level, k) in n1;
  }

  /** Away from the other key, both paths see an empty tree. */
  lemma StepsApart(
    sha: HashFunction, depth: nat, k1: seq<Byte>, k2: seq<Byte>, n1: Nodes, n2: Nodes, i: nat)
    requires |k1| == |k2| == KeyLength(depth) && k1 != k2 && i < depth
    requires SameElsewhere(n1, map[], k1) && SameElsewhere(n2, n1, k2) && k2 != Flip(k1, depth - 1 - i)
    ensures ProofStep(sha, n2, depth, k1, i) == EmptySteps(sha, depth, k1)[i]
    ensures ProofStep(sha, n1, depth, k2, i) == EmptySteps(sha, depth, k2)[i]
  {
    var pos := depth - 1 - i;
    FlipTwice(k2, pos);
    KeptOf(sha, n1, n2, k2, Flip(k1, pos), i);
    UntouchedIsDefault(sha, n1, k1, Flip(k1, pos), i);
    UntouchedIsDefault(sha, n1, k1, Flip(k2, pos), i);
    EmptyStepAt(sha, depth, k1, i);
    EmptyStepAt(sha, depth, k2, i);
  }

  lemma AllStepsApart(sha: HashFunction, depth: nat, k1: seq<Byte>, k2: seq<Byte>, n1: Nodes, n2: Nodes)
    requires |k1| == |k2| == KeyLength(depth) && k1 != k2 && !Siblings(depth, k1, k2)
    requires SameElsewhere(n1, map[], k1) && SameElsewhere(n2, n1, k2)
    ensures ProofSteps(sha, n2, depth, k1) == EmptySteps(sha, depth, k1)
    ensures ProofSteps(sha, n1, depth, k2) == EmptySteps(sha, depth, k2)
  {
    forall i: nat | i < depth
      ensures ProofStep(sha, n2, depth, k1, i) == EmptySteps(sha, depth, k1)[i]
      ensures ProofStep(sha, n1, depth, k2, i) == EmptySteps(sha, depth, k2)[i]
    {
      StepsApart(sha, depth, k1, k2, n1, n2, i);
    }
  }

  lemma WholePath(sha: HashFunction, depth: nat, key: seq<Byte>, leaf: Hash)
    requires |key| == KeyLength(depth)
    ensures HashAt(sha, depth, key, leaf, depth) == Fold(sha, leaf, EmptySteps(sha, depth, key))
  {
    assert EmptySteps(sha, depth, key)[..depth] == EmptySteps(sha, depth, key);
  }

  lemma LeafKept(
    sha: HashFunction, depth: nat, k1: seq<Byte>, v1: seq<Byte>, k2: seq<Byte>, n1: Nodes, n2: Nodes, r1: Hash)
    requires |k1| == |k2| == KeyLength(depth) && k1 != k2
    requires Written(sha, depth, map[], n1, k1, v1, r1) && SameElsewhere(n2, n1, k2)
    ensures NodeHash(sha, n2, 0, k1) == sha(v1)
  {
    WrittenIsProved(sha, depth, map[], n1, k1, v1, r1);
    KeptOf(sha, n1, n2, k2, k1, 0);
  }

  /** Keys that are not siblings: the earlier proof leads to the new root exactly if the paths meet. */
  lemma ApartSurvives(
    sha: HashFunction, depth: nat, k1: seq<Byte>, v1: seq<Byte>, k2: seq<Byte>, v2: seq<Byte>,
    n1: Nodes, r1: Hash, n2: Nodes, r2: Hash)
    requires Digests(sha) && |k1| == |k2| == KeyLength(depth) && k1 != k2 && !Siblings(depth, k1, k2)
    requires CollisionFree(sha, HashedFor(sha, depth, k1, v1, k2, v2))
    requires Written(sha, depth, map[], n1, k1, v1, r1) && Written(sha, depth, n1, n2, k2, v2, r2)
    ensures Proves(sha, n2, depth, r2, k1) <==> Survives(sha, depth, k1, v1, k2, v2)
  {
    AllStepsApart(sha, depth, k1, k2, n1, n2);
    LeafKept(sha, depth, k1, v1, k2, n1, n2, r1);
    WholePath(sha, depth, k1, sha(v1));
    WholePath(sha, depth, k2, sha(v2));
    PathsMeet(sha, HashedFor(sha, depth, k1, v1, k2, v2), depth, k1, sha(v1), k2, sha(v2), depth);
    SameBelowAll(depth, k1, k2);
  }

  lemma FoldAround(sha: HashFunction, hash: Hash, path: seq<PathStep>, l: nat)
    requires l < |path|
    ensures Fold(sha, hash, path) == Fold(sha, Climb(sha, Fold(sha, hash, path[..l]), path[l]), path[l + 1..])
  {
    assert path == path[..l + 1] + path[l + 1..];
    FoldSplit(sha, hash, path[..l + 1], path[l + 1..]);
    FoldLast(sha, hash, path, l);
  }

  /** Siblings at `pos` differ in that bit alone, so their empty paths differ at that level alone. */
  lemma SiblingSteps(sha: HashFunction, depth: nat, k1: seq<Byte>, k2: seq<Byte>, pos: nat, i: nat)
    requires |k1| == |k2| == KeyLength(depth) && pos < depth && k2 == Flip(k1, pos)
    requires i < depth && i != depth - 1 - pos
    ensures k2 != Flip(k1, depth - 1 - i)
    ensures EmptySteps(sha, depth, k1)[i] == EmptySteps(sha, depth, k2)[i]
  {
    FlipTurnsOne(k1, pos, pos);
    FlipTurnsOne(k1, depth - 1 - i, pos);
    FlipTurnsOne(k1, pos, depth - 1 - i);
    EmptyStepAt(sha, depth, k1, i);
    EmptyStepAt(sha, depth, k2, i);
  }

  /** Away from the level where the keys are siblings, both paths have the same steps. */
  lemma SiblingPaths(
    sha: HashFunction, depth: nat, k1: seq<Byte>, k2: seq<Byte>, n1: Nodes, n2: Nodes, pos: nat)
    requires |k1| == |k2| == KeyLength(depth) && pos < depth && k2 == Flip(k1, pos)
    requires SameElsewhere(n1, map[], k1) && SameElsewhere(n2, n1, k2)
    ensures
      var l := depth - 1 - pos;
      var p, q, e := ProofSteps(sha, n2, depth, k1), ProofSteps(sha, n1, depth, k2), EmptySteps(sha, depth, k1);
      p[..l] == q[..l] == e[..l] && p[l + 1..] == q[l + 1..] == e[l + 1..]
      && EmptySteps(sha, depth, k2)[..l] == e[..l]
  {
    var l := depth - 1 - pos;
    var p, q, e, f :=
      ProofSteps(sha, n2, depth, k1), ProofSteps(sha, n1, depth, k2), EmptySteps(sha, depth, k1), EmptySteps(sha, depth, k2);
    forall i: nat | i < depth && i != l ensures p[i] == e[i] == q[i] == f[i] {
      SiblingSteps(sha, depth, k1, k2, pos, i);
      StepsApart(sha, depth, k1, k2, n1, n2, i);
    }
  }

  /** At the level where the keys are siblings, each path meets the other's stored hash. */
  lemma SiblingHashes(
    sha: HashFunction, depth: nat, k1: seq<Byte>, v1: seq<Byte>, k2: seq<Byte>, v2: seq<Byte>,
    n1: Nodes, r1: Hash, n2: Nodes, r2: Hash, pos: nat)
    requires |k1| == |k2| == KeyLength(depth) && pos < depth && k2 == Flip(k1, pos)
    requires Written(sha, depth, map[], n1, k1, v1, r1) && Written(sha, depth, n1, n2, k2, v2, r2)
    ensures
      var l := depth - 1 - pos;
      var e := EmptySteps(sha, depth, k1)[..l];
      && ProofStep(sha, n2, depth, k1, l) == PathStep(Fold(sha, sha(v2), e), !Right(depth, k1, l))
      && ProofStep(sha, n1, depth, k2, l) == PathStep(Fold(sha, sha(v1), e), Right(depth, k1, l))
  {
    var l := depth - 1 - pos;
    SiblingPaths(sha, depth, k1, k2, n1, n2, pos);
    FlipTwice(k1, pos);
    FlipTurnsOne(k1, pos, pos);
    assert NodeHash(sha, n2, l, k2) == Fold(sha, sha(v2), ProofSteps(sha, n1, depth, k2)[..l]);
    assert NodeHash(sha, n1, l, k1) == Fold(sha, sha(v1), EmptySteps(sha, depth, k1)[..l]);
  }

  /** Two paths that agree but for one level, where each has the other's hash as its sibling, meet. */
  lemma CrossedPathsMeet(sha: HashFunction, a1: Hash, p: seq<PathStep>, a2: Hash, q: seq<PathStep>, l: nat, right: bool)
    requires l < |p| == |q| && p[..l] == q[..l] && p[l + 1..] == q[l + 1..]
    requires p[l] == PathStep(Fold(sha, a2, q[..l]), !right) && q[l] == PathStep(Fold(sha, a1, p[..l]), right)
    ensures Fold(sha, a1, p) == Fold(sha, a2, q)
  {
    FoldAround(sha, a1, p, l);
    FoldAround(sha, a2, q, l);
  }

  lemma SiblingPathsMeet(
    sha: HashFunction, depth: nat, k1: seq<Byte>, v1: seq<Byte>, k2: seq<Byte>, v2: seq<Byte>,
    n1: Nodes, r1: Hash, n2: Nodes, r2: Hash, pos: nat)
    requires |k1| == |k2| == KeyLength(depth) && pos < depth && k2 == Flip(k1, pos)
    requires Written(sha, depth, map[], n1, k1, v1, r1) && Written(sha, depth, n1, n2, k2, v2, r2)
    ensures Fold(sha, sha(v1), ProofSteps(sha, n2, depth, k1)) == Fold(sha, sha(v2), ProofSteps(sha, n1, depth, k2))
  {
    var l := depth - 1 - pos;
    var p, q := ProofSteps(sha, n2, depth, k1), ProofSteps(sha, n1, depth, k2);
    SiblingPaths(sha, depth, k1, k2, n1, n2, pos);
    SiblingHashes(sha, depth, k1, v1, k2, v2, n1, r1, n2, r2, pos);
    assert p[l] == ProofStep(sha, n2, depth, k1, l) && q[l] == ProofStep(sha, n1, depth, k2, l);
    CrossedPathsMeet(sha, sha(v1), p, sha(v2), q, l, Right(depth, k1, l));
  }

  /** Keys that are siblings at some level: the earlier proof always survives. */
  lemma SiblingSurvives(
    sha: HashFunction, depth: nat, k1: seq<Byte>, v1: seq<Byte>, k2: seq<Byte>, v2: seq<Byte>,
    n1: Nodes, r1: Hash, n2: Nodes, r2: Hash)
    requires |k1| == |k2| == KeyLength(depth) && k1 != k2 && Siblings(depth, k1, k2)
    requires Written(sha, depth, map[], n1, k1, v1, r1) && Written(sha, depth, n1, n2, k2, v2, r2)
    ensures Proves(sha, n2, depth, r2, k1)
  {
    var pos: nat :| pos < depth && k2 == Flip(k1, pos);
    LeafKept(sha, depth, k1, v1, k2, n1, n2, r1);
    SiblingPathsMeet(sha, depth, k1, v1, k2, v2, n1, r1, n2, r2, pos);
  }

  /** Exactly when the proof of a key set first survives setting another key. */
  lemma EarlierProofSurvives(
    sha: HashFunction, depth: nat, k1: seq<Byte>, v1: seq<Byte>, k2: seq<Byte>, v2: seq<Byte>,
    n1: Nodes, r1: Hash, n2: Nodes, r2: Hash)
    requires Digests(sha) && |k1| == |k2| == KeyLength(depth) && k1 != k2
    requires CollisionFree(sha, HashedFor(sha, depth, k1, v1, k2, v2))
    requires Written(sha, depth, map[], n1, k1, v1, r1) && Written(sha, depth, n1, n2, k2, v2, r2)
    ensures Proves(sha, n2, depth, r2, k1) <==> Survives(sha, depth, k1, v1, k2, v2)
  {
    if Siblings(depth, k1, k2) {
      SiblingSurvives(sha, depth, k1, v1, k2, v2, n1, r1, n2, r2);
    } else {
      ApartSurvives(sha, depth, k1, v1, k2, v2, n1, r1, n2, r2);
    }
  }

  /** The second key's stored hash at its sibling's level does not depend on what was set before. */
  lemma SameStoredEitherWay(
    sha: HashFunction, depth: nat, k1: seq<Byte>, k2: seq<Byte>, v2: seq<Byte>,
    n1: Nodes, n2: Nodes, r2: Hash, m1: Nodes, s1: Hash, i: nat)
    requires |k1| == |k2| == KeyLength(depth) && i < depth && k2 == Flip(k1, depth - 1 - i)
    requires SameElsewhere(n1, map[], k1) && Written(sha, depth, n1, n2, k2, v2, r2)
    requires Written(sha, depth, map[], m1, k2, v2, s1)
    ensures NodeHash(sha, n2, i, k2) == NodeHash(sha, m1, i, k2)
  {
    SiblingPaths(sha, depth, k1, k2, n1, n2, depth - 1 - i);
    assert NodeHash(sha, n2, i, k2) == Fold(sha, sha(v2), ProofSteps(sha, n1, depth, k2)[..i]);
    assert NodeHash(sha, m1, i, k2) == Fold(sha, sha(v2), EmptySteps(sha, depth, k2)[..i]);
  }

  /** The first key's path after both calls is the path it takes when it is set second. */
  lemma SamePathEitherWay(
    sha: HashFunction, depth: nat, k1: seq<Byte>, k2: seq<Byte>, v2: seq<Byte>,
    n1: Nodes, n2: Nodes, r2: Hash, m1: Nodes, s1: Hash)
    requires |k1| == |k2| == KeyLength(depth) && k1 != k2
    requires SameElsewhere(n1, map[], k1) && Written(sha, depth, n1, n2, k2, v2, r2)
    requires Written(sha, depth, map[], m1, k2, v2, s1)
    ensures ProofSteps(sha, n2, depth, k1) == ProofSteps(sha, m1, depth, k1)
  {
    forall i: nat | i < depth ensures ProofStep(sha, n2, depth, k1, i) == ProofStep(sha, m1, depth, k1, i) {
      var sibling := Flip(k1, depth - 1 - i);
      if sibling == k2 {
        SameStoredEitherWay(sha, depth, k1, k2, v2, n1, n2, r2, m1, s1, i);
      } else {
        KeptOf(sha, n1, n2, k2, sibling, i);
        UntouchedIsDefault(sha, n1, k1, sibling, i);
        UntouchedIsDefault(sha, m1, k2, sibling, i);
      }
    }
  }

  /** The order of two `Set` calls matters for the root in exactly the same cases. */
  lemma OrderMatters(
    sha: HashFunction, depth: nat, k1: seq<Byte>, v1: seq<Byte>, k2: seq<Byte>, v2: seq<Byte>,
    n1: Nodes, r1: Hash, n2: Nodes, r2: Hash, m1: Nodes, s1: Hash, m2: Nodes, s2: Hash)
    requires Digests(sha) && |k1| == |k2| == KeyLength(depth) && k1 != k2
    requires CollisionFree(sha, HashedFor(sha, depth, k1, v1, k2, v2))
    requires Written(sha, depth, map[], n1, k1, v1, r1) && Written(sha, depth, n1, n2, k2, v2, r2)
    requires Written(sha, depth, map[], m1, k2, v2, s1) && Written(sha, depth, m1, m2, k1, v1, s2)
    ensures r2 == s2 <==> Survives(sha, depth, k1, v1, k2, v2)
  {
    EarlierProofSurvives(sha, depth, k1, v1, k2, v2, n1, r1, n2, r2);
    SamePathEitherWay(sha, depth, k1, k2, v2, n1, n2, r2, m1, s1);
    LeafKept(sha, depth, k1, v1, k2, n1, n2, r1);
  }

  /** The same with a tree in use: a proof taken after the first call verifies, and one taken after the
      second verifies exactly if it survives. */
  method EarlierProof(sha: HashFunction, depth: nat, k1: seq<Byte>, v1: seq<Byte>, k2: seq<Byte>, v2: seq<Byte>)
    returns (before: bool, after: bool)
    requires Digests(sha) && |k1| == |k2| == KeyLength(depth) && k1 != k2
    requires CollisionFree(sha, HashedFor(sha, depth, k1, v1, k2, v2))
    ensures before && (after <==> Survives(sha, depth, k1, v1, k2, v2))
  {
    var t := new SparseMerkleTree(sha, depth);
    var err := t.Set(sha, Some(k1), v1);
    var r := t.GenerateProof(sha, Some(k1));
    before := VerifyProof(sha, Some(r.proof));
    ghost var n1, r1 := t.nodes, t.root;
    err := t.Set(sha, Some(k2), v2);
    r := t.GenerateProof(sha, Some(k1));
    LeafKept(sha, depth, k1, v1, k2, n1, t.nodes, r1);
    EarlierProofSurvives(sha, depth, k1, v1, k2, v2, n1, r1, t.nodes, t.root);
    after := VerifyProof(sha, Some(r.proof));
  }

  /** An instance where it does not: depth 2 and keys that differ in both bits. */
  method EarlierProofFails(sha: HashFunction, v1: seq<Byte>, v2: seq<Byte>) returns (before: bool, after: bool)
    requires Digests(sha) && CollisionFree(sha, HashedFor(sha, 2, [0], v1, [192], v2)) && sha(v1) != sha([])
    ensures before && !after
  {
    FirstBitDiffers();
    NotSiblings();
    before, after := EarlierProof(sha, 2, [0], v1, [192], v2);
  }

  lemma FirstBitDiffers()
    ensures !SameBits(2, [0], [192])
  {
    assert !IsRightChild([0], 0) && IsRightChild([192], 0);
  }

  lemma NotSiblings()
    ensures !Siblings(2, [0], [192])
  {
    assert Flip([0], 0) == [128];
    assert Flip([0], 1) == [64];
  }
}
