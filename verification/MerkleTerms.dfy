/** Roots and accepted proofs in the bare terms of the hash function. */
module MerkleTerms {
  import opened MerklePaths

  /** One value is its own root; two are hashed one after the other. */
  lemma RootOfTwo(sha: HashFunction, a: Hash, b: Hash)
    ensures Root(sha, [a]) == a && Root(sha, [a, b]) == sha(a + b)
  {
    assert Parents(sha, [a, b])[0] == sha(a + b);
  }

  lemma ParentOnLeft(sha: HashFunction, a: seq<Hash>, b: seq<Hash>, j: nat)
    requires |a| % 2 == 0 && 2 * j < |a|
    ensures Parents(sha, a + b)[j] == Parents(sha, a)[j]
  {
    assert (a + b)[2 * j] == a[2 * j] && (a + b)[2 * j + 1] == a[2 * j + 1];
  }

  lemma ParentOnRight(sha: HashFunction, a: seq<Hash>, b: seq<Hash>, m: nat, j: nat)
    requires |a| == 2 * m && 2 * j < |b|
    ensures Parents(sha, a + b)[m + j] == Parents(sha, b)[j]
  {
    var p := Partner(|b|, j);
    assert (a + b)[|a| + 2 * j] == b[2 * j] && (a + b)[|a| + p] == b[p];
    assert Partner(|a + b|, m + j) == |a| + p;
  }

  lemma ParentsOfConcat(sha: HashFunction, a: seq<Hash>, b: seq<Hash>, m: nat)
    requires |a| == 2 * m
    ensures Parents(sha, a + b) == Parents(sha, a) + Parents(sha, b)
  {
    var whole, left, right := Parents(sha, a + b), Parents(sha, a), Parents(sha, b);
    assert |whole| == |left| + |right| && |left| == m;
    forall j | 0 <= j < |whole| ensures whole[j] == (left + right)[j] {
      if j < m {
        ParentOnLeft(sha, a, b, j);
      } else {
        ParentOnRight(sha, a, b, m, j - m);
      }
    }
  }

  lemma RootIsAbove(sha: HashFunction, hs: seq<Hash>, above: seq<Hash>)
    requires |hs| > 1 && above == Parents(sha, hs)
    ensures above != [] && Root(sha, hs) == Root(sha, above)
  {
  }

  lemma HalfIsAbove(sha: HashFunction, hs: seq<Hash>, m: nat)
    requires |hs| == 2 * m && m > 0
    ensures |Parents(sha, hs)| == m && Root(sha, hs) == Root(sha, Parents(sha, hs))
  {
  }

  lemma ConcatIsAbove(sha: HashFunction, a: seq<Hash>, b: seq<Hash>, m: nat)
    requires |a| == |b| == 2 * m && m > 0
    ensures Parents(sha, a) != [] && Root(sha, a + b) == Root(sha, Parents(sha, a) + Parents(sha, b))
  {
    ParentsOfConcat(sha, a, b, m);
    RootIsAbove(sha, a + b, Parents(sha, a) + Parents(sha, b));
  }

  lemma HalvesOfOne(sha: HashFunction, a: seq<Hash>, b: seq<Hash>)
    requires |a| == |b| == 1
    ensures Root(sha, a + b) == sha(Root(sha, a) + Root(sha, b))
  {
    RootOfTwo(sha, a[0], b[0]);
    assert a == [a[0]] && b == [b[0]] && a + b == [a[0], b[0]];
  }

  ghost predicate Joins(sha: HashFunction, whole: Hash, left: Hash, right: Hash) {
    whole == sha(left + right)
  }

  lemma JoinsAbove(sha: HashFunction, a: seq<Hash>, b: seq<Hash>, m: nat)
    requires |a| == |b| == 2 * m && m > 0
    requires |Parents(sha, a)| > 0 && |Parents(sha, b)| > 0
    requires Joins(sha, Root(sha, Parents(sha, a) + Parents(sha, b)), Root(sha, Parents(sha, a)), Root(sha, Parents(sha, b)))
    ensures Joins(sha, Root(sha, a + b), Root(sha, a), Root(sha, b))
  {
    HalfIsAbove(sha, a, m);
    HalfIsAbove(sha, b, m);
    ConcatIsAbove(sha, a, b, m);
  }

  lemma {:induction false} HalvesJoin(sha: HashFunction, a: seq<Hash>, b: seq<Hash>, height: nat)
    requires |a| == |b| == Pow2(height) && a != [] && b != []
    ensures Joins(sha, Root(sha, a + b), Root(sha, a), Root(sha, b))
    decreases height
  {
    if height == 0 {
      HalvesOfOne(sha, a, b);
    } else {
      var m := Pow2(height - 1);
      HalvesJoin(sha, Parents(sha, a), Parents(sha, b), height - 1);
      JoinsAbove(sha, a, b, m);
    }
  }

  /** The root of a full tree is the hash of the roots of its halves, the left one first. */
  lemma RootOfHalves(sha: HashFunction, a: seq<Hash>, b: seq<Hash>, height: nat)
    requires |a| == |b| == Pow2(height) && a != [] && b != []
    ensures Root(sha, a + b) == sha(Root(sha, a) + Root(sha, b))
  {
    HalvesJoin(sha, a, b, height);
  }

  lemma ParentsWithLastTwice(sha: HashFunction, hs: seq<Hash>, twice: seq<Hash>, m: nat)
    requires |hs| == 2 * m + 1 && twice == hs + [hs[2 * m]]
    ensures Parents(sha, twice) == Parents(sha, hs)
  {
    forall j | 0 <= j <= m ensures Parents(sha, twice)[j] == Parents(sha, hs)[j] {
      assert twice[2 * j] == hs[2 * j] && twice[2 * j + 1] == hs[Partner(|hs|, j)];
    }
  }

  /** An odd last value counts twice. */
  lemma OddLastCountsTwice(sha: HashFunction, hs: seq<Hash>)
    requires |hs| % 2 == 1 && |hs| > 1
    ensures Root(sha, hs) == Root(sha, hs + [hs[|hs| - 1]])
  {
    var twice := hs + [hs[|hs| - 1]];
    ParentsWithLastTwice(sha, hs, twice, |hs| / 2);
    RootIsAbove(sha, hs, Parents(sha, hs));
    RootIsAbove(sha, twice, Parents(sha, hs));
  }

  /** What the verifier computes on the way: from each hash the next, with the sibling on the side its bit says. */
  ghost predicate Climbs(sha: HashFunction, siblings: seq<Hash>, bits: seq<bool>, hashes: seq<Hash>) {
    && |hashes| == |siblings| + 1 && |bits| == |siblings|
    && forall i {:trigger siblings[i]} :: 0 <= i < |siblings| ==>
        hashes[i + 1] == sha(if bits[i] then hashes[i] + siblings[i] else siblings[i] + hashes[i])
  }

  lemma {:induction false} ClimbsFold(sha: HashFunction, proof: MerkleProof, hashes: seq<Hash>, i: nat)
    requires |proof.siblings| == |proof.pathBits| && Climbs(sha, proof.siblings, proof.pathBits, hashes)
    requires i <= |proof.siblings|
    ensures Fold(sha, hashes[0], StepsOf(proof)[..i]) == hashes[i]
  {
    if i > 0 {
      ClimbsFold(sha, proof, hashes, i - 1);
      FoldLast(sha, hashes[0], StepsOf(proof), i - 1);
      assert StepsOf(proof)[i - 1] == PathStep(proof.siblings[i - 1], proof.pathBits[i - 1]);
    }
  }

  ghost function HashesOf(sha: HashFunction, proof: MerkleProof): (r: seq<Hash>)
    requires |proof.siblings| == |proof.pathBits|
    ensures |r| == |proof.siblings| + 1
  {
    seq(|proof.siblings| + 1, i requires 0 <= i <= |proof.siblings| => Fold(sha, proof.leafHash, StepsOf(proof)[..i]))
  }

  lemma HashesClimb(sha: HashFunction, proof: MerkleProof)
    requires |proof.siblings| == |proof.pathBits|
    ensures Climbs(sha, proof.siblings, proof.pathBits, HashesOf(sha, proof))
    ensures HashesOf(sha, proof)[0] == proof.leafHash
    ensures HashesOf(sha, proof)[|proof.siblings|] == Fold(sha, proof.leafHash, StepsOf(proof))
  {
    var steps := StepsOf(proof);
    forall i | 0 <= i < |proof.siblings|
      ensures HashesOf(sha, proof)[i + 1] == Climb(sha, HashesOf(sha, proof)[i], steps[i])
    {
      FoldLast(sha, proof.leafHash, steps, i);
    }
    assert steps[..0] == [] && steps[..|steps|] == steps;
  }

  /** A proof is accepted exactly if it has a leaf and a root, a bit for every sibling, and its hashes climb
      from the one to the other. */
  lemma AcceptsInTerms(sha: HashFunction, proof: MerkleProof)
    ensures Accepts(sha, proof) <==>
      && proof.leafHash != [] && proof.rootHash != [] && |proof.siblings| == |proof.pathBits|
      && exists hashes ::
          && Climbs(sha, proof.siblings, proof.pathBits, hashes)
          && hashes[0] == proof.leafHash && hashes[|proof.siblings|] == proof.rootHash
  {
    if |proof.siblings| == |proof.pathBits| {
      HashesClimb(sha, proof);
      if hashes :| Climbs(sha, proof.siblings, proof.pathBits, hashes) && hashes[0] == proof.leafHash
                   && hashes[|proof.siblings|] == proof.rootHash
      {
        ClimbsFold(sha, proof, hashes, |proof.siblings|);
        assert StepsOf(proof)[..|proof.siblings|] == StepsOf(proof);
      }
    }
  }

  // Path bits.

  /** `n` without its last `k` bits. */
  function Halved(n: nat, k: nat): nat { if k == 0 then n else Halved(n / 2, k - 1) }

  lemma {:induction false} HalvedMore(n: nat, k: nat)
    ensures Halved(n, k + 1) == Halved(n, k) / 2
  {
    if k > 0 {
      HalvedMore(n / 2, k - 1);
    }
  }

  /** That is the quotient by a power of two. */
  lemma {:induction false} HalvedIsQuotient(n: nat, k: nat)
    ensures Pow2(k) > 0 && Halved(n, k) == n / Pow2(k)
  {
    HalvedBounds(n, k);
    QuotientIs(n, Pow2(k), Halved(n, k));
  }

  lemma {:induction false} HalvedBounds(n: nat, k: nat)
    ensures Halved(n, k) * Pow2(k) <= n < Halved(n, k) * Pow2(k) + Pow2(k)
  {
    if k > 0 {
      HalvedBounds(n / 2, k - 1);
      Doubling(Halved(n, k), Pow2(k - 1));
    }
  }

  lemma Doubling(h: nat, m: nat)
    ensures h * (2 * m) == 2 * (h * m)
  {
  }

  lemma QuotientIs(n: nat, m: nat, q: nat)
    requires q * m <= n < q * m + m
    ensures m > 0 && n / m == q
  {
    var p := n / m;
    assert m * (p - q) == (n - q * m) - n % m;
    if p > q {
      AtLeastOnce(m, p - q);
    } else if p < q {
      AtLeastOnce(m, q - p);
    }
  }

  lemma AtLeastOnce(m: nat, k: nat)
    requires k >= 1
    ensures m * k >= m
  {
  }

  /** The path bits of a leaf spell its index, lowest bit first: a zero bit has its sibling on the right. */
  lemma BitsSpellLeaf(sha: HashFunction, hs: seq<Hash>, i: nat, k: nat)
    requires i < |hs| && k < |PathFrom(sha, hs, i)|
    ensures Pow2(k) > 0 && (PathFrom(sha, hs, i)[k].siblingIsRight <==> i / Pow2(k) % 2 == 0)
  {
    PathTakesTurns(sha, hs, i);
    TurnIsHalved(|hs|, i, k);
    HalvedIsQuotient(i, k);
  }

  /** The turns of a path depend on the index and the number of leaves only. */
  function Turns(n: nat, i: nat): seq<bool>
    requires i < n
  {
    if n == 1 then [] else [i % 2 == 0] + Turns((n + 1) / 2, i / 2)
  }

  lemma PathAbove(sha: HashFunction, hs: seq<Hash>, i: nat)
    requires |hs| > 1 && i < |hs|
    ensures i / 2 < |Parents(sha, hs)|
    ensures PathFrom(sha, hs, i) == [StepAt(hs, i)] + PathFrom(sha, Parents(sha, hs), i / 2)
  {
  }

  ghost predicate TakesTurns(path: seq<PathStep>, turns: seq<bool>) {
    |path| == |turns| && forall k :: 0 <= k < |path| ==> path[k].siblingIsRight == turns[k]
  }

  lemma {:induction false} PathTakesTurns(sha: HashFunction, hs: seq<Hash>, i: nat)
    requires i < |hs|
    ensures TakesTurns(PathFrom(sha, hs, i), Turns(|hs|, i))
    decreases |hs|
  {
    if |hs| > 1 {
      PathAbove(sha, hs, i);
      PathTakesTurns(sha, Parents(sha, hs), i / 2);
    }
  }

  lemma {:induction false} TurnIsHalved(n: nat, i: nat, k: nat)
    requires i < n && k < |Turns(n, i)|
    ensures Turns(n, i)[k] <==> Halved(i, k) % 2 == 0
    decreases k
  {
    if k > 0 {
      TurnIsHalved((n + 1) / 2, i / 2, k - 1);
    }
  }
}
