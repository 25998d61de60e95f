/** The pointer-based hash tree of data-structures/merkle.go. A level with an odd number of nodes gives
    its last node to the parent twice, so the nodes form a shared graph rather than a tree. */
module Merkle {
  import opened BigEndian
  import opened MerklePaths

  /** Only the parent pointer is written after a node is made. */
  class MerkleNode {
    const hash: Hash
    const left: MerkleNode?
    const right: MerkleNode?
    var parent: MerkleNode?

    constructor (hash: Hash, left: MerkleNode?, right: MerkleNode?)
      ensures this.hash == hash && this.left == left && this.right == right && parent == null
    {
      this.hash, this.left, this.right, parent := hash, left, right, null;
    }
  }

  function HashesOf(nodes: seq<MerkleNode>): (r: seq<Hash>)
    ensures |r| == |nodes| && forall i :: 0 <= i < |r| ==> r[i] == nodes[i].hash
  {
    seq(|nodes|, i requires 0 <= i < |nodes| => nodes[i].hash)
  }

  ghost predicate Distinct(nodes: seq<MerkleNode>) {
    forall i, j :: 0 <= i < j < |nodes| ==> nodes[i] != nodes[j]
  }

  /** Node `p` was built from positions `2 * j` and its partner. */
  ghost predicate BuiltFrom(sha: HashFunction, p: MerkleNode, lo: seq<MerkleNode>, j: nat)
    requires 2 * j < |lo|
  {
    var l, r := lo[2 * j], lo[Partner(|lo|, j)];
    p.left == l && p.right == r && p.hash == HashPair(sha, l.hash, r.hash)
  }

  ghost predicate PointsUp(lo: seq<MerkleNode>, hi: seq<MerkleNode>, i: nat)
    requires i < |lo| && i / 2 < |hi|
    reads lo[i]
  {
    lo[i].parent == hi[i / 2]
  }

  ghost predicate Built(sha: HashFunction, lo: seq<MerkleNode>, hi: seq<MerkleNode>)
    requires 2 * |hi| <= |lo| + 1
  {
    forall j: nat {:trigger BuiltFrom(sha, hi[j], lo, j)} :: j < |hi| ==> BuiltFrom(sha, hi[j], lo, j)
  }

  ghost predicate PointingUp(lo: seq<MerkleNode>, hi: seq<MerkleNode>, done: nat)
    requires done <= |lo| && done <= 2 * |hi|
    reads lo
  {
    forall i: nat {:trigger PointsUp(lo, hi, i)} :: i < done ==> PointsUp(lo, hi, i)
  }

  /** `hi` pairs up `lo`: pointers in both directions, and each parent's hash that of its children. */
  ghost predicate Linked(sha: HashFunction, lo: seq<MerkleNode>, hi: seq<MerkleNode>)
    reads lo
  {
    && |lo| > 1 && Distinct(lo) && |hi| == (|lo| + 1) / 2
    && Built(sha, lo, hi) && PointingUp(lo, hi, |lo|)
  }

  lemma BuiltHashes(sha: HashFunction, lo: seq<MerkleNode>, hi: seq<MerkleNode>)
    requires |hi| == (|lo| + 1) / 2 && Built(sha, lo, hi)
    ensures HashesOf(hi) == Parents(sha, HashesOf(lo))
  {
    var up := Parents(sha, HashesOf(lo));
    forall j: nat | j < |hi| ensures HashesOf(hi)[j] == up[j] {
      assert BuiltFrom(sha, hi[j], lo, j);
      assert Partner(|lo|, j) == Partner(|HashesOf(lo)|, j);
    }
  }

  method BuildParent(sha: HashFunction, left: MerkleNode, right: MerkleNode) returns (parent: MerkleNode)
    modifies left, right
    ensures fresh(parent) && left.parent == parent && right.parent == parent
    ensures parent.hash == HashPair(sha, left.hash, right.hash)
    ensures parent.left == left && parent.right == right && parent.parent == null
  {
    parent := new MerkleNode(HashPair(sha, left.hash, right.hash), left, right);
    left.parent := parent;
    right.parent := parent;
  }

  method BuildParentLevel(sha: HashFunction, children: seq<MerkleNode>) returns (parents: seq<MerkleNode>)
    requires |children| > 1 && Distinct(children)
    modifies children
    ensures Linked(sha, children, parents) && Distinct(parents)
    ensures forall p :: p in parents ==> fresh(p) && p.parent == null
  {
    parents := [];
    var i := 0;
    while i < |children|
      invariant 0 <= i <= |children| + 1 && |parents| == i / 2 && i == 2 * |parents|
      invariant Distinct(parents)
      invariant forall p :: p in parents ==> fresh(p) && p.parent == null
      invariant Built(sha, children, parents)
      invariant PointingUp(children, parents, if i <= |children| then i else |children|)
    {
      ghost var before, j := parents, i / 2;
      var left := children[i];
      var right := left;
      if i + 1 < |children| {
        right := children[i + 1];
      }
      assert right == children[Partner(|children|, j)];
      var parent := BuildParent(sha, left, right);
      parents := parents + [parent];
      i := i + 2;
      AddParent(sha, children, before, parent, j);
    }
  }

  lemma AddParent(sha: HashFunction, lo: seq<MerkleNode>, hi: seq<MerkleNode>, p: MerkleNode, j: nat)
    requires |hi| == j && 2 * j < |lo| && Built(sha, lo, hi) && BuiltFrom(sha, p, lo, j)
    requires forall i: nat {:trigger PointsUp(lo, hi, i)} :: i < 2 * j ==> PointsUp(lo, hi, i)
    requires lo[2 * j].parent == p && lo[Partner(|lo|, j)].parent == p
    ensures Built(sha, lo, hi + [p])
    ensures PointingUp(lo, hi + [p], Partner(|lo|, j) + 1)
  {
    forall i: nat | i < Partner(|lo|, j) + 1 ensures PointsUp(lo, hi + [p], i) {
      if i < 2 * j {
        assert PointsUp(lo, hi, i) && i / 2 < j;
      } else {
        assert i / 2 == j;
      }
    }
    forall m: nat | m < j + 1 ensures BuiltFrom(sha, (hi + [p])[m], lo, m) {
      if m < j {
        assert BuiltFrom(sha, hi[m], lo, m);
      }
    }
  }

  datatype ProofResult = Proved(proof: MerkleProof) | Failed(error: string)

  function LeafHashes(sha: HashFunction, data: seq<seq<Byte>>): (r: seq<Hash>)
    ensures |r| == |data| && forall i :: 0 <= i < |r| ==> r[i] == sha(data[i])
  {
    seq(|data|, i requires 0 <= i < |data| => sha(data[i]))
  }

  /** Every node of every level is in `repr`. */
  ghost predicate Inside(levels: seq<seq<MerkleNode>>, repr: set<MerkleNode>) {
    forall k: nat, i: nat {:trigger levels[k][i]} :: k < |levels| && i < |levels[k]| ==> levels[k][i] in repr
  }

  ghost predicate LinkedAt(sha: HashFunction, levels: seq<seq<MerkleNode>>, k: nat)
    requires k + 1 < |levels|
    reads levels[k]
  {
    Linked(sha, levels[k], levels[k + 1])
  }

  ghost predicate AllLinked(sha: HashFunction, levels: seq<seq<MerkleNode>>, repr: set<MerkleNode>)
    requires Inside(levels, repr)
    reads repr
  {
    forall k: nat {:trigger LinkedAt(sha, levels, k)} :: k + 1 < |levels| ==> LinkedAt(sha, levels, k)
  }

  lemma PointersUp(sha: HashFunction, lo: seq<MerkleNode>, hi: seq<MerkleNode>, i: nat)
    requires Linked(sha, lo, hi) && i < |lo|
    ensures i / 2 < |hi| && lo[i].parent == hi[i / 2]
    ensures hi[i / 2].left == lo[2 * (i / 2)] && hi[i / 2].right == lo[Partner(|lo|, i / 2)]
    ensures lo[i] == hi[i / 2].left <==> i % 2 == 0
  {
    var j := i / 2;
    assert i == 2 * j || i == 2 * j + 1;
    assert PointsUp(lo, hi, i) && BuiltFrom(sha, hi[j], lo, j);
  }

  lemma StepRead(sha: HashFunction, lo: seq<MerkleNode>, hi: seq<MerkleNode>, i: nat)
    requires Linked(sha, lo, hi) && i < |lo|
    ensures i / 2 < |hi| && lo[i].parent == hi[i / 2]
    ensures hi[i / 2].left != null && hi[i / 2].right != null
    ensures
      var p, isLeft := hi[i / 2], lo[i] == hi[i / 2].left;
      StepAt(HashesOf(lo), i) == PathStep(if isLeft then p.right.hash else p.left.hash, isLeft)
  {
    PointersUp(sha, lo, hi, i);
    assert i % 2 == 1 ==> i - 1 == 2 * (i / 2);
  }

  lemma UnfoldPath(sha: HashFunction, hs: seq<Hash>, i: nat)
    requires |hs| > 1 && i < |hs|
    ensures PathFrom(sha, hs, i) == [StepAt(hs, i)] + PathFrom(sha, Parents(sha, hs), i / 2)
  {
  }

  /** One step of the walk: the parent is the node above, and the sibling read through its pointers is
      the step of the path. */
  lemma StepUp(sha: HashFunction, lo: seq<MerkleNode>, hi: seq<MerkleNode>, i: nat)
    requires Linked(sha, lo, hi) && i < |lo|
    ensures i / 2 < |hi| && lo[i].parent == hi[i / 2]
    ensures hi[i / 2].left != null && hi[i / 2].right != null
    ensures
      var p, isLeft := hi[i / 2], lo[i] == hi[i / 2].left;
      PathFrom(sha, HashesOf(lo), i)
      == [PathStep(if isLeft then p.right.hash else p.left.hash, isLeft)] + PathFrom(sha, HashesOf(hi), i / 2)
  {
    StepRead(sha, lo, hi, i);
    UnfoldPath(sha, HashesOf(lo), i);
    BuiltHashes(sha, lo, hi);
  }

  lemma AddLinked(sha: HashFunction, levels: seq<seq<MerkleNode>>, next: seq<MerkleNode>, repr: set<MerkleNode>)
    requires |levels| > 0 && Linked(sha, levels[|levels| - 1], next)
    requires Inside(levels, repr) && AllLinked(sha, levels, repr) && forall n :: n in next ==> n in repr
    ensures Inside(levels + [next], repr) && AllLinked(sha, levels + [next], repr)
  {
    forall k: nat | k < |levels| ensures LinkedAt(sha, levels + [next], k) {
      if k + 1 < |levels| {
        assert LinkedAt(sha, levels, k);
      }
    }
  }

  ghost predicate Collected(siblings: seq<Hash>, bits: seq<bool>, steps: seq<PathStep>) {
    |siblings| == |bits| == |steps| && forall j :: 0 <= j < |steps| ==> steps[j] == PathStep(siblings[j], bits[j])
  }

  lemma MoveStep(steps: seq<PathStep>, step: PathStep, rest: seq<PathStep>)
    ensures steps + ([step] + rest) == (steps + [step]) + rest
  {
  }

  class MerkleTree {
    var root: MerkleNode?
    var leaves: seq<MerkleNode>
    ghost var levels: seq<seq<MerkleNode>>
    ghost var repr: set<MerkleNode>

    ghost predicate Valid(sha: HashFunction)
      reads this, repr
    {
      && |levels| > 0 && levels[0] == leaves && Inside(levels, repr) && AllLinked(sha, levels, repr)
      && (leaves == [] ==> levels == [[]] && root == null)
      && (leaves != [] ==>
            && root != null && levels[|levels| - 1] == [root]
            && root in repr && root.parent == null
            && root.hash == Root(sha, HashesOf(leaves)))
    }

    constructor (sha: HashFunction, data: seq<seq<Byte>>)
      ensures Valid(sha)
      ensures HashesOf(leaves) == LeafHashes(sha, data)
      ensures if data == [] then root == null else root != null && root.hash == Root(sha, LeafHashes(sha, data))
    {
      root, leaves, levels, repr := null, [], [[]], {};
      new;
      if |data| == 0 {
        return;
      }
      HashLeaves(sha, data);
      levels, repr := [leaves], set n | n in leaves;
      if |leaves| == 1 {
        root := leaves[0];
        return;
      }
      BuildUp(sha);
    }

    method HashLeaves(sha: HashFunction, data: seq<seq<Byte>>)
      requires leaves == []
      modifies this`leaves
      ensures HashesOf(leaves) == LeafHashes(sha, data) && Distinct(leaves)
      ensures forall n :: n in leaves ==> fresh(n) && n.parent == null
    {
      for i := 0 to |data|
        invariant |leaves| == i && Distinct(leaves)
        invariant forall n :: n in leaves ==> fresh(n) && n.parent == null
        invariant forall j :: 0 <= j < i ==> leaves[j].hash == sha(data[j])
      {
        var leaf := new MerkleNode(sha(data[i]), null, null);
        leaves := leaves + [leaf];
      }
    }

    /** `top` is the level built last, above `levels[0] == leaves`. */
    ghost predicate Growing(sha: HashFunction, top: seq<MerkleNode>)
      reads this, repr
    {
      && |levels| > 0 && levels[0] == leaves && levels[|levels| - 1] == top && top != [] && leaves != []
      && Inside(levels, repr) && AllLinked(sha, levels, repr) && Distinct(top)
      && (forall n :: n in top ==> n in repr && n.parent == null)
      && Root(sha, HashesOf(top)) == Root(sha, HashesOf(leaves))
    }

    method AddLevel(sha: HashFunction, top: seq<MerkleNode>) returns (next: seq<MerkleNode>)
      requires |top| > 1 && Growing(sha, top)
      modifies this`levels, this`repr, repr
      ensures Growing(sha, next) && |next| < |top| && fresh(repr - old(repr))
    {
      next := BuildParentLevel(sha, top);
      // Linked nodes have a parent, so giving parents to unattached nodes leaves them alone.
      forall k: nat | k + 1 < |levels| ensures LinkedAt(sha, levels, k) {
        assert old(LinkedAt(sha, levels, k));
        ghost var lo, hi := levels[k], levels[k + 1];
        forall i: nat | i < |lo| ensures PointsUp(lo, hi, i) {
          assert old(PointsUp(lo, hi, i));
        }
      }
      BuiltHashes(sha, top, next);
      repr := repr + set n | n in next;
      AddLinked(sha, levels, next, repr);
      levels := levels + [next];
    }

    method BuildUp(sha: HashFunction)
      requires |leaves| > 1 && Distinct(leaves) && levels == [leaves]
      requires forall n :: n in leaves ==> n in repr && n.parent == null
      modifies this`root, this`levels, this`repr, repr
      ensures Valid(sha)
    {
      var nextLevel := AddLevel(sha, leaves);
      while 1 < |nextLevel|
        invariant Growing(sha, nextLevel) && fresh(repr - old(repr))
        decreases |nextLevel|
      {
        nextLevel := AddLevel(sha, nextLevel);
      }
      root := nextLevel[0];
    }

    /** The walk from a leaf to the root, collecting siblings. */
    method Siblings(sha: HashFunction, index: nat) returns (siblings: seq<Hash>, bits: seq<bool>, ghost steps: seq<PathStep>)
      requires Valid(sha) && index < |leaves|
      ensures Collected(siblings, bits, steps) && steps == PathFrom(sha, HashesOf(leaves), index)
    {
      bits, siblings, steps := [], [], [];
      ghost var k: nat, i: nat := 0, index;
      ghost var path := PathFrom(sha, HashesOf(leaves), index);
      var n := leaves[index];
      while n.parent != null
        invariant k < |levels| && i < |levels[k]| && n == levels[k][i]
        invariant Collected(siblings, bits, steps)
        invariant path == steps + PathFrom(sha, HashesOf(levels[k]), i)
        decreases |levels| - k
      {
        BelowTop(sha, k, i);
        var parent := n.parent;
        var siblingIsRight, siblingHash;
        if n == parent.left {
          siblingIsRight := true;
          siblingHash := parent.right.hash;
        } else {
          siblingIsRight := false;
          siblingHash := parent.left.hash;
        }
        ghost var step, rest := PathStep(siblingHash, siblingIsRight), PathFrom(sha, HashesOf(levels[k + 1]), i / 2);
        MoveStep(steps, step, rest);
        bits := bits + [siblingIsRight];
        siblings := siblings + [siblingHash];
        steps := steps + [step];
        n := parent;
        k, i := k + 1, i / 2;
      }
      AtTop(sha, k, i);
    }

    lemma BelowTop(sha: HashFunction, k: nat, i: nat)
      requires Valid(sha) && k < |levels| && i < |levels[k]| && levels[k][i].parent != null
      ensures k + 1 < |levels|
      ensures i / 2 < |levels[k + 1]| && levels[k][i].parent == levels[k + 1][i / 2]
      ensures levels[k + 1][i / 2].left != null && levels[k + 1][i / 2].right != null
      ensures
        var p, isLeft := levels[k + 1][i / 2], levels[k][i] == levels[k + 1][i / 2].left;
        PathFrom(sha, HashesOf(levels[k]), i)
        == [PathStep(if isLeft then p.right.hash else p.left.hash, isLeft)] + PathFrom(sha, HashesOf(levels[k + 1]), i / 2)
    {
      assert leaves != [] && levels[|levels| - 1] == [root];
      assert LinkedAt(sha, levels, k);
      StepUp(sha, levels[k], levels[k + 1], i);
    }

    lemma HasParent(sha: HashFunction, k: nat, i: nat)
      requires Valid(sha) && k + 1 < |levels| && i < |levels[k]|
      ensures levels[k][i].parent != null
    {
      assert LinkedAt(sha, levels, k);
      assert PointsUp(levels[k], levels[k + 1], i);
    }

    lemma AtTop(sha: HashFunction, k: nat, i: nat)
      requires Valid(sha) && k < |levels| && i < |levels[k]| && levels[k][i].parent == null
      ensures PathFrom(sha, HashesOf(levels[k]), i) == []
    {
      if k + 1 < |levels| {
        HasParent(sha, k, i);
      }
    }

    method GenerateProof(sha: HashFunction, index: int) returns (r: ProofResult)
      requires Valid(sha)
      ensures index < 0 || |leaves| <= index ==> r == Failed("Index out of bounds")
      ensures 0 <= index < |leaves| ==>
        && r.Proved? && |r.proof.siblings| == |r.proof.pathBits| == Height(|leaves|)
        && r.proof.leafHash == leaves[index].hash && r.proof.rootHash == Root(sha, HashesOf(leaves))
        && StepsOf(r.proof) == PathFrom(sha, HashesOf(leaves), index)
    {
      if index < 0 || |leaves| <= index {
        return Failed("Index out of bounds");
      } else if root == null {
        assert false;
        return Failed("Malformed tree");
      }
      var leaf := leaves[index];
      ghost var steps;
      var siblings, bits;
      siblings, bits, steps := Siblings(sha, index);
      r := Proved(MerkleProof(siblings, bits, leaf.hash, root.hash));
      assert StepsOf(r.proof) == steps;
      PathLength(sha, HashesOf(leaves), index);
    }
  }

  /** What `GenerateProof` returns for a valid index is accepted by `VerifyProof`. */
  lemma GeneratedProofIsAccepted(sha: HashFunction, data: seq<seq<Byte>>, index: nat, p: MerkleProof)
    requires Digests(sha) && index < |data| && |p.siblings| == |p.pathBits|
    requires p.leafHash == sha(data[index]) && p.rootHash == Root(sha, LeafHashes(sha, data))
    requires StepsOf(p) == PathFrom(sha, LeafHashes(sha, data), index)
    ensures Accepts(sha, p)
  {
    PathLeadsToRoot(sha, LeafHashes(sha, data), index);
    RootIsDigest(sha, LeafHashes(sha, data));
  }

  lemma {:induction false} RootIsDigest(sha: HashFunction, hs: seq<Hash>)
    requires Digests(sha) && hs != [] && forall h :: h in hs ==> |h| == 32
    ensures |Root(sha, hs)| == 32
    decreases |hs|
  {
    if |hs| > 1 {
      RootIsDigest(sha, Parents(sha, hs));
    }
  }

  /** A proof accepted for a tree's root along the path of leaf `index` can only be about that leaf. */
  lemma ProofNamesTheLeaf(sha: HashFunction, data: seq<seq<Byte>>, index: nat, p: MerkleProof)
    requires Digests(sha) && index < |data|
    requires Accepts(sha, p) && p.rootHash == Root(sha, LeafHashes(sha, data))
    requires CollisionFree(sha,
      Inputs(sha, p.leafHash, StepsOf(p))
      + Inputs(sha, sha(data[index]), PathFrom(sha, LeafHashes(sha, data), index)))
    requires |p.leafHash| == 32 && DigestSized(StepsOf(p))
    requires SameTurns(StepsOf(p), PathFrom(sha, LeafHashes(sha, data), index))
    ensures p.leafHash == sha(data[index])
  {
    var hs := LeafHashes(sha, data);
    PathLeadsToRoot(sha, hs, index);
    PathIsDigestSized(sha, hs, index);
    PathIsBinding(sha, p.leafHash, StepsOf(p), hs[index], PathFrom(sha, hs, index));
  }

  lemma {:induction false} PathIsDigestSized(sha: HashFunction, hs: seq<Hash>, i: nat)
    requires Digests(sha) && i < |hs| && forall h :: h in hs ==> |h| == 32
    ensures DigestSized(PathFrom(sha, hs, i))
    decreases |hs|
  {
    if |hs| > 1 {
      assert |StepAt(hs, i).sibling| == 32;
      PathIsDigestSized(sha, Parents(sha, hs), i / 2);
    }
  }
}
