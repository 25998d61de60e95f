/** Pair-and-duplicate hash trees as values: the root of a list of hashes, the path of siblings from a
    leaf, and what a path proves. The 32-byte hash function is a parameter throughout. */
module MerklePaths {
  import opened BigEndian

  type Hash = seq<Byte>

  type HashFunction = seq<Byte> -> Hash

  ghost predicate Digests(sha: HashFunction) {
    forall x :: |sha(x)| == 32
  }

  function HashPair(sha: HashFunction, left: Hash, right: Hash): Hash { sha(left + right) }

  /** The right partner of position `2 * j`: itself at an odd end. */
  function Partner(n: nat, j: nat): nat
    requires 2 * j < n
  {
    if 2 * j + 1 < n then 2 * j + 1 else 2 * j
  }

  function Parents(sha: HashFunction, hs: seq<Hash>): (r: seq<Hash>)
    ensures |r| == (|hs| + 1) / 2
    ensures forall j :: 0 <= j < |r| ==> r[j] == HashPair(sha, hs[2 * j], hs[Partner(|hs|, j)])
  {
    seq((|hs| + 1) / 2, j requires 0 <= j < (|hs| + 1) / 2 => HashPair(sha, hs[2 * j], hs[Partner(|hs|, j)]))
  }

  function Root(sha: HashFunction, hs: seq<Hash>): Hash
    requires hs != []
    decreases |hs|
  {
    if |hs| == 1 then hs[0] else Root(sha, Parents(sha, hs))
  }

  /** A step up: the sibling's hash, and whether the sibling is on the right. */
  datatype PathStep = PathStep(sibling: Hash, siblingIsRight: bool)

  function StepAt(hs: seq<Hash>, i: nat): PathStep
    requires i < |hs|
  {
    if i % 2 == 0 then PathStep(hs[Partner(|hs|, i / 2)], true) else PathStep(hs[i - 1], false)
  }

  function PathFrom(sha: HashFunction, hs: seq<Hash>, i: nat): seq<PathStep>
    requires i < |hs|
    decreases |hs|
  {
    if |hs| == 1 then [] else [StepAt(hs, i)] + PathFrom(sha, Parents(sha, hs), i / 2)
  }

  function Climb(sha: HashFunction, hash: Hash, step: PathStep): (r: Hash)
    ensures r == sha(Input(hash, step))
  {
    if step.siblingIsRight then HashPair(sha, hash, step.sibling) else HashPair(sha, step.sibling, hash)
  }

  /** The hash reached from `hash` along a path. */
  function Fold(sha: HashFunction, hash: Hash, path: seq<PathStep>): Hash
    decreases |path|
  {
    if path == [] then hash else Fold(sha, Climb(sha, hash, path[0]), path[1..])
  }

  function Pow2(k: nat): nat { if k == 0 then 1 else 2 * Pow2(k - 1) }

  /** Climbing from position `i` with the step at `i` reaches its parent, on either side. */
  lemma ClimbsToParent(sha: HashFunction, hs: seq<Hash>, i: nat)
    requires i < |hs|
    ensures i / 2 < |Parents(sha, hs)|
    ensures Climb(sha, hs[i], StepAt(hs, i)) == Parents(sha, hs)[i / 2]
  {
    var j := i / 2;
    assert i == 2 * j || i == 2 * j + 1;
    assert Parents(sha, hs)[j] == HashPair(sha, hs[2 * j], hs[Partner(|hs|, j)]);
  }

  lemma FoldStep(sha: HashFunction, hash: Hash, step: PathStep, rest: seq<PathStep>)
    ensures Fold(sha, hash, [step] + rest) == Fold(sha, Climb(sha, hash, step), rest)
  {
    assert ([step] + rest)[1..] == rest;
  }

  /** Completeness: the path of every leaf leads to the root. */
  lemma {:induction false} PathLeadsToRoot(sha: HashFunction, hs: seq<Hash>, i: nat)
    requires i < |hs|
    ensures Fold(sha, hs[i], PathFrom(sha, hs, i)) == Root(sha, hs)
    decreases |hs|
  {
    if |hs| > 1 {
      ClimbsToParent(sha, hs, i);
      PathLeadsToRoot(sha, Parents(sha, hs), i / 2);
      FoldStep(sha, hs[i], StepAt(hs, i), PathFrom(sha, Parents(sha, hs), i / 2));
    }
  }

  /** The least `k` with `2^k >= n`, by halving upwards. */
  function Height(n: nat): nat
    requires n > 0
  {
    if n == 1 then 0 else 1 + Height((n + 1) / 2)
  }

  lemma {:induction false} HeightIsCeilLog2(n: nat)
    requires n > 0
    ensures n <= Pow2(Height(n))
    ensures Height(n) > 0 ==> Pow2(Height(n) - 1) < n
  {
    if n > 1 {
      HeightIsCeilLog2((n + 1) / 2);
    }
  }

  /** A path has exactly as many steps as it takes to halve the list down to one. */
  lemma {:induction false} PathLength(sha: HashFunction, hs: seq<Hash>, i: nat)
    requires i < |hs|
    ensures |PathFrom(sha, hs, i)| == Height(|hs|)
    decreases |hs|
  {
    if |hs| > 1 {
      PathLength(sha, Parents(sha, hs), i / 2);
    }
  }

  /** What is hashed in one step up. */
  function Input(hash: Hash, step: PathStep): seq<Byte> {
    if step.siblingIsRight then hash + step.sibling else step.sibling + hash
  }

  /** Everything hashed on the way along a path. */
  ghost function Inputs(sha: HashFunction, hash: Hash, path: seq<PathStep>): set<seq<Byte>>
    decreases |path|
  {
    if path == [] then {} else {Input(hash, path[0])} + Inputs(sha, Climb(sha, hash, path[0]), path[1..])
  }

  /** No two of these strings have the same hash. Over all strings that would be too much to ask of a
      hash of fixed size, so it is only ever asked of the strings that are actually hashed. */
  ghost predicate CollisionFree(sha: HashFunction, xs: set<seq<Byte>>) {
    forall x, y {:trigger sha(x), sha(y)} :: x in xs && y in xs && sha(x) == sha(y) ==> x == y
  }

  lemma SameSplit(a: Hash, s: Hash, b: Hash, t: Hash)
    requires |a| == |b| && a + s == b + t
    ensures a == b && s == t
  {
    assert (a + s)[..|a|] == a && (b + t)[..|b|] == b;
    assert (a + s)[|a|..] == s && (b + t)[|b|..] == t;
  }

  lemma ClimbIsInjective(sha: HashFunction, xs: set<seq<Byte>>, a: Hash, s: PathStep, b: Hash, t: PathStep)
    requires CollisionFree(sha, xs) && Input(a, s) in xs && Input(b, t) in xs
    requires s.siblingIsRight == t.siblingIsRight
    requires |a| == |b| == |s.sibling| == |t.sibling| == 32 && Climb(sha, a, s) == Climb(sha, b, t)
    ensures a == b && s == t
  {
    assert Input(a, s) == Input(b, t);
    if s.siblingIsRight {
      SameSplit(a, s.sibling, b, t.sibling);
    } else {
      SameSplit(s.sibling, a, t.sibling, b);
    }
  }

  ghost predicate SameTurns(p: seq<PathStep>, q: seq<PathStep>) {
    |p| == |q| && forall i :: 0 <= i < |p| ==> p[i].siblingIsRight == q[i].siblingIsRight
  }

  ghost predicate DigestSized(p: seq<PathStep>) {
    forall i :: 0 <= i < |p| ==> |p[i].sibling| == 32
  }

  /** Soundness: two paths with the same turns that lead to the same root without a collision start at
      the same leaf hash and have the same siblings. */
  lemma {:induction false} PathIsBinding(sha: HashFunction, a: Hash, p: seq<PathStep>, b: Hash, q: seq<PathStep>)
    requires Digests(sha) && CollisionFree(sha, Inputs(sha, a, p) + Inputs(sha, b, q))
    requires |a| == 32 && |b| == 32 && DigestSized(p) && DigestSized(q) && SameTurns(p, q)
    requires Fold(sha, a, p) == Fold(sha, b, q)
    ensures a == b && p == q
    decreases |p|
  {
    if p != [] {
      assert p[0].siblingIsRight == q[0].siblingIsRight && |p[0].sibling| == 32 && |q[0].sibling| == 32;
      PathIsBinding(sha, Climb(sha, a, p[0]), p[1..], Climb(sha, b, q[0]), q[1..]);
      ClimbIsInjective(sha, Inputs(sha, a, p) + Inputs(sha, b, q), a, p[0], b, q[0]);
      assert p == [p[0]] + p[1..] && q == [q[0]] + q[1..];
    }
  }

  /** A path can be climbed in two parts. */
  lemma {:induction false} FoldSplit(sha: HashFunction, hash: Hash, p: seq<PathStep>, q: seq<PathStep>)
    ensures Fold(sha, hash, p + q) == Fold(sha, Fold(sha, hash, p), q)
    decreases |p|
  {
    if p == [] {
      assert p + q == q;
    } else {
      assert (p + q)[1..] == p[1..] + q;
      FoldSplit(sha, Climb(sha, hash, p[0]), p[1..], q);
    }
  }

  lemma FoldLast(sha: HashFunction, hash: Hash, path: seq<PathStep>, i: nat)
    requires i < |path|
    ensures Fold(sha, hash, path[..i + 1]) == Climb(sha, Fold(sha, hash, path[..i]), path[i])
  {
    assert path[..i + 1] == path[..i] + ([path[i]] + []);
    FoldSplit(sha, hash, path[..i], [path[i]] + []);
    FoldStep(sha, Fold(sha, hash, path[..i]), path[i], []);
  }

  lemma {:induction false} InputAt(sha: HashFunction, hash: Hash, path: seq<PathStep>, i: nat)
    requires i < |path|
    ensures Input(Fold(sha, hash, path[..i]), path[i]) in Inputs(sha, hash, path)
    decreases i
  {
    if i > 0 {
      InputAt(sha, Climb(sha, hash, path[0]), path[1..], i - 1);
      assert path[..i] == [path[0]] + path[1..][..i - 1];
      FoldStep(sha, hash, path[0], path[1..][..i - 1]);
    }
  }

  datatype MerkleProof = MerkleProof(siblings: seq<Hash>, pathBits: seq<bool>, leafHash: Hash, rootHash: Hash)

  datatype Option<T> = None | Some(value: T)

  /** The steps of a well-formed proof. */
  function StepsOf(proof: MerkleProof): (r: seq<PathStep>)
    requires |proof.siblings| == |proof.pathBits|
    ensures |r| == |proof.siblings|
    ensures forall i :: 0 <= i < |r| ==> r[i] == PathStep(proof.siblings[i], proof.pathBits[i])
  {
    seq(|proof.siblings|, i requires 0 <= i < |proof.siblings| => PathStep(proof.siblings[i], proof.pathBits[i]))
  }

  ghost predicate Accepts(sha: HashFunction, proof: MerkleProof) {
    && proof.leafHash != [] && proof.rootHash != [] && |proof.siblings| == |proof.pathBits|
    && Fold(sha, proof.leafHash, StepsOf(proof)) == proof.rootHash
  }

  method VerifyProof(sha: HashFunction, proof: Option<MerkleProof>) returns (r: bool)
    ensures r <==> proof.Some? && Accepts(sha, proof.value)
  {
    if proof.None? || |proof.value.leafHash| == 0 || |proof.value.rootHash| == 0
       || |proof.value.siblings| != |proof.value.pathBits|
    {
      return false;
    }
    var p := proof.value;
    ghost var steps := StepsOf(p);
    var hash := p.leafHash;
    for i := 0 to |p.siblings|
      invariant Fold(sha, hash, steps[i..]) == Fold(sha, p.leafHash, steps)
    {
      var sib := p.siblings[i];
      assert steps[i..][1..] == steps[i + 1..] && steps[i..][0] == PathStep(sib, p.pathBits[i]);
      if p.pathBits[i] {
        hash := HashPair(sha, hash, sib);
      } else {
        hash := HashPair(sha, sib, hash);
      }
    }
    return hash == p.rootHash;
  }

  /** Two accepted proofs of the same root with the same path bits prove the same leaf. */
  lemma AcceptedProofsAgree(sha: HashFunction, p: MerkleProof, q: MerkleProof)
    requires Digests(sha) && Accepts(sha, p) && Accepts(sha, q)
    requires CollisionFree(sha, Inputs(sha, p.leafHash, StepsOf(p)) + Inputs(sha, q.leafHash, StepsOf(q)))
    requires p.rootHash == q.rootHash && p.pathBits == q.pathBits
    requires |p.leafHash| == 32 && |q.leafHash| == 32 && DigestSized(StepsOf(p)) && DigestSized(StepsOf(q))
    ensures p.leafHash == q.leafHash && p.siblings == q.siblings
  {
    PathIsBinding(sha, p.leafHash, StepsOf(p), q.leafHash, StepsOf(q));
    forall i | 0 <= i < |p.siblings| ensures p.siblings[i] == q.siblings[i] {
      assert StepsOf(p)[i] == StepsOf(q)[i];
    }
  }
}
