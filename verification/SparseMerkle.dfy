/** The sparse hash tree of data-structures/merkle.go. One map holds the values under their raw keys and
    the node hashes under "level:hex" addresses, so keeping the two apart is part of the proof. */
module SparseMerkle {
  import opened BigEndian
  import opened MerklePaths

  // Addresses.

  function HexDigit(n: nat): Byte
    requires n < 16
  {
    if n < 10 then 48 + n else 87 + n
  }

  function Hex(key: seq<Byte>): (r: seq<Byte>)
    ensures |r| == 2 * |key|
  {
    if key == [] then [] else [HexDigit(key[0] / 16), HexDigit(key[0] % 16)] + Hex(key[1..])
  }

  function Decimal(n: nat): (r: seq<Byte>)
    ensures |r| > 0
  {
    if n < 10 then [48 + n] else Decimal(n / 10) + [48 + n % 10]
  }

  function Address(level: nat, key: seq<Byte>): (r: seq<Byte>)
    ensures |r| > |key|
  {
    Decimal(level) + [58] + Hex(key)
  }

  lemma {:induction false} HexIsInjective(a: seq<Byte>, b: seq<Byte>)
    requires Hex(a) == Hex(b)
    ensures a == b
  {
    if a != [] {
      assert |Hex(b)| == 2 * |a|;
      assert Hex(a)[0] == HexDigit(a[0] / 16) && Hex(a)[1] == HexDigit(a[0] % 16);
      assert Hex(b)[0] == HexDigit(b[0] / 16) && Hex(b)[1] == HexDigit(b[0] % 16);
      assert Hex(a)[2..] == Hex(a[1..]) && Hex(b)[2..] == Hex(b[1..]);
      HexIsInjective(a[1..], b[1..]);
      assert a == [a[0]] + a[1..] && b == [b[0]] + b[1..];
    }
  }

  lemma {:induction false} DecimalIsInjective(m: nat, n: nat)
    requires Decimal(m) == Decimal(n)
    ensures m == n
  {
    var a, b := Decimal(m), Decimal(n);
    if m >= 10 && n >= 10 {
      assert a[..|a| - 1] == Decimal(m / 10) && b[..|b| - 1] == Decimal(n / 10);
      assert a[|a| - 1] == 48 + m % 10 && b[|b| - 1] == 48 + n % 10;
      DecimalIsInjective(m / 10, n / 10);
    }
  }

  /** Addresses of keys of one length name one level and one key. */
  lemma AddressIsInjective(l: nat, a: seq<Byte>, m: nat, b: seq<Byte>)
    requires |a| == |b| && Address(l, a) == Address(m, b)
    ensures l == m && a == b
  {
    var x, y := Address(l, a), Address(m, b);
    var k := |x| - 2 * |a|;
    assert k == |Decimal(l)| + 1 == |Decimal(m)| + 1;
    assert x[k..] == Hex(a) && y[k..] == Hex(b);
    assert x[..k - 1] == Decimal(l) && y[..k - 1] == Decimal(m);
    HexIsInjective(a, b);
    DecimalIsInjective(l, m);
  }

  // Key bits, the most significant of the first byte first.

  /** Bit `k` of a byte, the least significant being bit 0. */
  predicate BitOf(b: nat, k: nat) {
    if k == 0 then b % 2 == 1 else BitOf(b / 2, k - 1)
  }

  /** Exclusive-or with the mask of bit `k`. */
  function Flipped(b: nat, k: nat): nat {
    if k == 0 then (if b % 2 == 1 then b - 1 else b + 1) else 2 * Flipped(b / 2, k - 1) + b % 2
  }

  lemma {:induction false} FlippedBits(b: nat, k: nat, j: nat)
    ensures BitOf(Flipped(b, k), j) == if j == k then !BitOf(b, j) else BitOf(b, j)
    ensures Flipped(Flipped(b, k), k) == b
  {
    if k > 0 {
      FlippedBits(b / 2, k - 1, if j > 0 then j - 1 else 0);
      assert Flipped(b, k) / 2 == Flipped(b / 2, k - 1) && Flipped(b, k) % 2 == b % 2;
    } else {
      assert j > 0 ==> Flipped(b, 0) / 2 == b / 2;
    }
  }

  lemma {:induction false} FlippedBelow(b: nat, k: nat, n: nat)
    requires k < n && b < Pow2(n)
    ensures Flipped(b, k) < Pow2(n)
  {
    var m := Pow2(n - 1);
    HalfBelow(b, m);
    if k > 0 {
      FlippedBelow(b / 2, k - 1, n - 1);
      HalfBelow(Flipped(b, k), m);
    } else {
      HalfBelow(Flipped(b, 0), m);
    }
  }

  lemma HalfBelow(b: nat, m: nat)
    ensures b < 2 * m <==> b / 2 < m
  {
  }

  function FlipBit(b: Byte, k: nat): (r: Byte)
    requires k < 8
    ensures r == Flipped(b, k)
  {
    assert Flipped(b, k) < 256 by {
      assert Pow2(8) == 256;
      FlippedBelow(b, k, 8);
    }
    Flipped(b, k)
  }

  function IsRightChild(key: seq<Byte>, pos: nat): bool
    requires pos / 8 < |key|
  {
    BitOf(key[pos / 8], 7 - pos % 8)
  }

  /** The key that differs in just the bit at `pos`. */
  function Flip(key: seq<Byte>, pos: nat): (r: seq<Byte>)
    requires pos / 8 < |key|
    ensures |r| == |key| && r != key
  {
    FlippedBits(key[pos / 8], 7 - pos % 8, 7 - pos % 8);
    key[pos / 8 := FlipBit(key[pos / 8], 7 - pos % 8)]
  }

  lemma FlipTurnsOne(key: seq<Byte>, pos: nat, at: nat)
    requires pos / 8 < |key| && at / 8 < |key|
    ensures IsRightChild(Flip(key, pos), at) == if at == pos then !IsRightChild(key, at) else IsRightChild(key, at)
  {
    if at / 8 == pos / 8 {
      FlippedBits(key[pos / 8], 7 - pos % 8, 7 - at % 8);
      assert 7 - pos % 8 == 7 - at % 8 <==> at == pos;
    }
  }

  lemma FlipTwice(key: seq<Byte>, pos: nat)
    requires pos / 8 < |key|
    ensures Flip(Flip(key, pos), pos) == key
  {
    FlippedBits(key[pos / 8], 7 - pos % 8, 0);
  }

  function KeyLength(depth: nat): nat { (depth + 7) / 8 }

  // The tree as a value.

  type Nodes = map<seq<Byte>, seq<Byte>>

  function DefaultHash(sha: HashFunction, level: nat): Hash {
    if level == 0 then sha([]) else HashPair(sha, DefaultHash(sha, level - 1), DefaultHash(sha, level - 1))
  }

  function NodeHash(sha: HashFunction, nodes: Nodes, level: nat, key: seq<Byte>): Hash {
    if Address(level, key) in nodes then nodes[Address(level, key)] else DefaultHash(sha, level)
  }

  /** The step of a proof at `level`: the sibling's key differs in the bit of that level. */
  function ProofStep(sha: HashFunction, nodes: Nodes, depth: nat, key: seq<Byte>, level: nat): PathStep
    requires level < depth && |key| == KeyLength(depth)
  {
    var pos := depth - 1 - level;
    PathStep(NodeHash(sha, nodes, level, Flip(key, pos)), !IsRightChild(key, pos))
  }

  function ProofSteps(sha: HashFunction, nodes: Nodes, depth: nat, key: seq<Byte>): (r: seq<PathStep>)
    requires |key| == KeyLength(depth)
    ensures |r| == depth && forall i :: 0 <= i < depth ==> r[i] == ProofStep(sha, nodes, depth, key, i)
  {
    seq(depth, i requires 0 <= i < depth => ProofStep(sha, nodes, depth, key, i))
  }

  /** The proof of `key` verifies against `root`. */
  ghost predicate Proves(sha: HashFunction, nodes: Nodes, depth: nat, root: Hash, key: seq<Byte>)
    requires |key| == KeyLength(depth)
  {
    Fold(sha, NodeHash(sha, nodes, 0, key), ProofSteps(sha, nodes, depth, key)) == root
  }

  lemma {:induction false} EmptyFolds(sha: HashFunction, depth: nat, key: seq<Byte>, i: nat)
    requires |key| == KeyLength(depth) && i <= depth
    ensures Fold(sha, DefaultHash(sha, i), ProofSteps(sha, map[], depth, key)[i..]) == DefaultHash(sha, depth)
    decreases depth - i
  {
    var steps := ProofSteps(sha, map[], depth, key);
    if i < depth {
      assert steps[i..][1..] == steps[i + 1..] && steps[i..][0] == ProofStep(sha, map[], depth, key, i);
      EmptyFolds(sha, depth, key, i + 1);
    }
  }

  /** In a fresh tree every key has a valid proof. */
  lemma FreshProvesAll(sha: HashFunction, depth: nat, key: seq<Byte>)
    requires |key| == KeyLength(depth)
    ensures Proves(sha, map[], depth, DefaultHash(sha, depth), key)
  {
    EmptyFolds(sha, depth, key, 0);
    var steps := ProofSteps(sha, map[], depth, key);
    assert steps[0..] == steps;
  }

  /** The maps differ at most at `key` itself and at its own addresses. */
  ghost predicate SameElsewhere(nodes: Nodes, before: Nodes, key: seq<Byte>) {
    && (forall k {:trigger k in nodes} :: |k| == |key| && k != key ==> (k in nodes <==> k in before))
    && (forall k {:trigger nodes[k]} :: |k| == |key| && k != key && k in nodes && k in before ==> nodes[k] == before[k])
    && forall level: nat, k {:trigger Address(level, k)} :: |k| == |key| && k != key ==>
        var a := Address(level, k);
        (a in nodes <==> a in before) && (a in nodes ==> nodes[a] == before[a])
  }

  lemma WriteOwnAddress(nodes: Nodes, before: Nodes, key: seq<Byte>, level: nat, hash: Hash)
    requires SameElsewhere(nodes, before, key)
    ensures SameElsewhere(nodes[Address(level, key) := hash], before, key)
  {
    forall l: nat, k | |k| == |key| && k != key ensures Address(l, k) != Address(level, key) {
      if Address(l, k) == Address(level, key) {
        AddressIsInjective(l, k, level, key);
      }
    }
  }

  lemma WriteKey(nodes: Nodes, key: seq<Byte>, value: seq<Byte>)
    ensures SameElsewhere(nodes[key := value], nodes, key)
  {
  }

  /** Siblings never have the key itself, so a proof's steps survive writes along the key's own path. */
  lemma SameSteps(sha: HashFunction, nodes: Nodes, before: Nodes, depth: nat, key: seq<Byte>)
    requires |key| == KeyLength(depth) && SameElsewhere(nodes, before, key)
    ensures ProofSteps(sha, nodes, depth, key) == ProofSteps(sha, before, depth, key)
  {
    forall i: nat | i < depth
      ensures ProofStep(sha, nodes, depth, key, i) == ProofStep(sha, before, depth, key, i)
    {
      assert Address(i, Flip(key, depth - 1 - i)) in nodes <==> Address(i, Flip(key, depth - 1 - i)) in before;
    }
  }

  /** `key`'s own addresses up to `level` hold the hashes of its path. */
  ghost predicate Stored(sha: HashFunction, nodes: Nodes, key: seq<Byte>, leaf: Hash, steps: seq<PathStep>, level: nat)
    requires level <= |steps|
  {
    forall i: nat {:trigger NodeHash(sha, nodes, i, key)} :: i <= level ==>
      NodeHash(sha, nodes, i, key) == Fold(sha, leaf, steps[..i])
  }

  /** What setting `key` does: its own addresses hold the hashes of its path, up to the root, and
      nothing that belongs to another key changes. */
  ghost predicate Written(
    sha: HashFunction, depth: nat, before: Nodes, after: Nodes, key: seq<Byte>, value: seq<Byte>, root: Hash)
    requires |key| == KeyLength(depth)
  {
    var steps := ProofSteps(sha, before, depth, key);
    && SameElsewhere(after, before, key)
    && Stored(sha, after, key, sha(value), steps, depth)
    && root == Fold(sha, sha(value), steps)
  }

  lemma WrittenIsProved(
    sha: HashFunction, depth: nat, before: Nodes, after: Nodes, key: seq<Byte>, value: seq<Byte>, root: Hash)
    requires |key| == KeyLength(depth) && Written(sha, depth, before, after, key, value, root)
    ensures NodeHash(sha, after, 0, key) == sha(value) && Proves(sha, after, depth, root, key)
  {
    SameSteps(sha, after, before, depth, key);
  }

  datatype GetResult = Found(value: seq<Byte>) | GetFailed(error: string)

  datatype ProofResult = Proved(proof: MerkleProof) | ProofFailed(error: string)

  class SparseMerkleTree {
    var root: Hash
    const depth: nat
    var defaultHashes: seq<Hash>
    var nodes: Nodes
    /** What was set last for each key. */
    ghost var values: map<seq<Byte>, seq<Byte>>

    /** The root and the leaf of `key` have the size of a hash. */
    ghost predicate Sized(sha: HashFunction, key: seq<Byte>)
      reads this
    {
      |root| == 32 && |NodeHash(sha, nodes, 0, key)| == 32
    }

    ghost predicate Valid(sha: HashFunction)
      reads this
    {
      && |defaultHashes| == depth + 1
      && (forall i :: 0 <= i <= depth ==> defaultHashes[i] == DefaultHash(sha, i))
      && forall k {:trigger k in nodes} :: |k| == KeyLength(depth) ==>
          (k in nodes <==> k in values) && (k in nodes ==> nodes[k] == values[k])
    }

    constructor (sha: HashFunction, depth: nat)
      ensures Valid(sha) && this.depth == depth && values == map[] && nodes == map[]
      ensures root == DefaultHash(sha, depth)
      ensures forall key :: |key| == KeyLength(depth) ==>
        Proves(sha, nodes, depth, root, key) && (Digests(sha) ==> Sized(sha, key))
    {
      this.depth := depth;
      nodes, values := map[], map[];
      defaultHashes := [sha([])];
      root := [];
      new;
      for i := 1 to depth + 1
        invariant |defaultHashes| == i && nodes == map[] && values == map[]
        invariant forall j :: 0 <= j < i ==> defaultHashes[j] == DefaultHash(sha, j)
      {
        defaultHashes := defaultHashes + [HashPair(sha, defaultHashes[i - 1], defaultHashes[i - 1])];
      }
      root := defaultHashes[depth];
      assert Digests(sha) ==> |DefaultHash(sha, depth)| == |DefaultHash(sha, 0)| == 32;
      forall key | |key| == KeyLength(depth) ensures Proves(sha, nodes, depth, root, key) {
        FreshProvesAll(sha, depth, key);
      }
    }

    /** The complaint about a key, or the empty string. */
    function ValidateKey(key: Option<seq<Byte>>): (error: string)
      ensures error == "" <==> key.Some? && |key.value| == KeyLength(depth)
    {
      if key.None? then "Key cannot be nil"
      else if |key.value| != (depth + 7) / 8 then "Invalid key length"
      else ""
    }

    method Get(ghost sha: HashFunction, key: Option<seq<Byte>>) returns (r: GetResult)
      requires Valid(sha)
      ensures ValidateKey(key) != "" ==> r == GetFailed(ValidateKey(key))
      ensures ValidateKey(key) == "" ==>
        r == if key.value in values then Found(values[key.value]) else GetFailed("Not found for key")
    {
      var err := ValidateKey(key);
      if err != "" {
        return GetFailed(err);
      }
      if key.value !in nodes {
        return GetFailed("Not found for key");
      }
      return Found(nodes[key.value]);
    }

    method GetNodeHash(sha: HashFunction, level: nat, key: seq<Byte>) returns (h: Hash)
      requires Valid(sha) && level <= depth
      ensures h == NodeHash(sha, nodes, level, key)
    {
      var a := Address(level, key);
      if a in nodes {
        return nodes[a];
      }
      return defaultHashes[level];
    }

    method GetSiblingHash(sha: HashFunction, level: nat, key: seq<Byte>) returns (h: Hash)
      requires Valid(sha) && level < depth && |key| == KeyLength(depth)
      ensures h == ProofStep(sha, nodes, depth, key, level).sibling
    {
      h := GetNodeHash(sha, level, Flip(key, depth - 1 - level));
    }

    method Set(sha: HashFunction, key: Option<seq<Byte>>, value: seq<Byte>) returns (error: string)
      requires Valid(sha)
      modifies this`root, this`nodes, this`values
      ensures Valid(sha) && error == ValidateKey(key)
      ensures error != "" ==> values == old(values) && nodes == old(nodes) && root == old(root)
      ensures error == "" ==>
        && values == old(values)[key.value := value]
        && Written(sha, depth, old(nodes), nodes, key.value, value, root)
        && Proves(sha, nodes, depth, root, key.value) && (Digests(sha) ==> Sized(sha, key.value))
    {
      error := ValidateKey(key);
      if error != "" {
        return;
      }
      var k := key.value;
      ghost var before := nodes;
      nodes, values := nodes[k := value], values[k := value];
      WriteKey(before, k, value);
      var currentHash := sha(value);
      SetNodeHash(sha, 0, k, currentHash, before);
      root := Rehash(sha, k, currentHash, before);
      WrittenIsProved(sha, depth, before, nodes, k, value, root);
    }

    /** The walk from the leaf level to the root, storing the hash of each level under the key. */
    method Rehash(sha: HashFunction, k: seq<Byte>, currentHash: Hash, ghost before: Nodes) returns (computedHash: Hash)
      requires Valid(sha) && |k| == KeyLength(depth)
      requires SameElsewhere(nodes, before, k) && NodeHash(sha, nodes, 0, k) == currentHash
      modifies this`nodes
      ensures Valid(sha) && SameElsewhere(nodes, before, k)
      ensures Stored(sha, nodes, k, currentHash, ProofSteps(sha, before, depth, k), depth)
      ensures computedHash == Fold(sha, currentHash, ProofSteps(sha, before, depth, k))
      ensures Digests(sha) && |currentHash| == 32 ==> |computedHash| == 32
    {
      ghost var steps := ProofSteps(sha, before, depth, k);
      computedHash := currentHash;
      for i := 0 to depth
        invariant Valid(sha) && SameElsewhere(nodes, before, k)
        invariant Stored(sha, nodes, k, currentHash, steps, i)
        invariant Digests(sha) && |currentHash| == 32 ==> |computedHash| == 32
        invariant computedHash == Fold(sha, currentHash, steps[..i])
      {
        FoldLast(sha, currentHash, steps, i);
        computedHash := RehashLevel(sha, k, i, computedHash, before);
      }
      assert steps[..depth] == steps;
    }

    method RehashLevel(sha: HashFunction, k: seq<Byte>, i: nat, computedHash: Hash, ghost before: Nodes)
      returns (newHash: Hash)
      requires Valid(sha) && |k| == KeyLength(depth) && i < depth && SameElsewhere(nodes, before, k)
      modifies this`nodes
      ensures Valid(sha) && SameElsewhere(nodes, before, k)
      ensures newHash == Climb(sha, computedHash, ProofSteps(sha, before, depth, k)[i])
      ensures NodeHash(sha, nodes, i + 1, k) == newHash
      ensures forall l: nat {:trigger NodeHash(sha, nodes, l, k)} ::
        l != i + 1 ==> NodeHash(sha, nodes, l, k) == NodeHash(sha, old(nodes), l, k)
      ensures Digests(sha) ==> |newHash| == 32
    {
      var isRight := IsRightChild(k, depth - 1 - i);
      var siblingHash := GetSiblingHash(sha, i, k);
      SameSteps(sha, nodes, before, depth, k);
      assert ProofSteps(sha, nodes, depth, k)[i] == PathStep(siblingHash, !isRight);
      if isRight {
        newHash := HashPair(sha, siblingHash, computedHash);
      } else {
        newHash := HashPair(sha, computedHash, siblingHash);
      }
      SetNodeHash(sha, i + 1, k, newHash, before);
    }

    method SetNodeHash(ghost sha: HashFunction, level: nat, key: seq<Byte>, hash: Hash, ghost before: Nodes)
      requires Valid(sha) && |key| == KeyLength(depth) && SameElsewhere(nodes, before, key)
      modifies this`nodes
      ensures Valid(sha) && nodes == old(nodes)[Address(level, key) := hash]
      ensures SameElsewhere(nodes, before, key) && NodeHash(sha, nodes, level, key) == hash
      ensures forall l: nat {:trigger NodeHash(sha, nodes, l, key)} ::
        l != level ==> NodeHash(sha, nodes, l, key) == NodeHash(sha, old(nodes), l, key)
    {
      nodes := nodes[Address(level, key) := hash];
      WriteOwnAddress(old(nodes), before, key, level, hash);
      forall l: nat | l != level ensures NodeHash(sha, nodes, l, key) == NodeHash(sha, old(nodes), l, key) {
        if Address(l, key) == Address(level, key) {
          AddressIsInjective(l, key, level, key);
        }
      }
    }

    method GenerateProof(sha: HashFunction, key: Option<seq<Byte>>) returns (r: ProofResult)
      requires Valid(sha)
      ensures ValidateKey(key) != "" ==> r == ProofFailed(ValidateKey(key))
      ensures ValidateKey(key) == "" ==>
        && r.Proved? && |r.proof.siblings| == |r.proof.pathBits| == depth
        && StepsOf(r.proof) == ProofSteps(sha, nodes, depth, key.value)
        && r.proof.leafHash == NodeHash(sha, nodes, 0, key.value) && r.proof.rootHash == root
        && (Digests(sha) && Sized(sha, key.value) ==>
              (Accepts(sha, r.proof) <==> Proves(sha, nodes, depth, root, key.value)))
    {
      var err := ValidateKey(key);
      if err != "" {
        return ProofFailed(err);
      }
      var k := key.value;
      var leafHash := GetNodeHash(sha, 0, k);
      var siblings: seq<Hash>, bits: seq<bool> := [], [];
      for level := 0 to depth
        invariant |siblings| == |bits| == level
        invariant forall i :: 0 <= i < level ==>
          PathStep(siblings[i], bits[i]) == ProofStep(sha, nodes, depth, k, i)
      {
        var sibling := GetSiblingHash(sha, level, k);
        siblings := siblings + [sibling];
        bits := bits + [!IsRightChild(k, depth - 1 - level)];
      }
      r := Proved(MerkleProof(siblings, bits, leafHash, root));
      assert StepsOf(r.proof) == ProofSteps(sha, nodes, depth, k);
    }
  }
}
