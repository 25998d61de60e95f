/** The sparse hash tree of data-structures/merkle.go as an ordinary hash tree: a key spells the number of
    its leaf, and the root is that of a full row of leaves. */
module SparseRoot {
  import opened BigEndian
  import opened MerklePaths
  import opened MerkleTerms
  import opened SparseMerkle
  import opened SparseProofs

  /** The number of a key's leaf: the first `depth` bits of the key, read as a big-endian number. */
  function Index(depth: nat, key: seq<Byte>): nat
    requires |key| == KeyLength(depth)
  {
    Halved(Value(key), 8 * |key| - depth)
  }

  /** As many bytes as the bits need, and no more. */
  lemma KeyLengthIsExact(depth: nat)
    ensures depth <= 8 * KeyLength(depth) < depth + 8
  {
  }

  // Bits of keys and of numbers.

  lemma {:induction false} HalvedBelow(n: nat, j: nat, k: nat)
    requires n < Pow2(j + k)
    ensures Halved(n, j) < Pow2(k)
  {
    if j > 0 {
      HalfBelow(n, Pow2(j - 1 + k));
      HalvedBelow(n / 2, j - 1, k);
    }
  }

  lemma {:induction false} PowSum(j: nat, k: nat)
    ensures Pow2(j + k) == Pow2(j) * Pow2(k)
  {
    if j > 0 {
      PowSum(j - 1, k);
    }
  }

  lemma {:induction false} BitOfHalved(n: nat, j: nat, k: nat)
    ensures BitOf(n, j + k) == BitOf(Halved(n, j), k)
  {
    if j > 0 {
      BitOfHalved(n / 2, j - 1, k);
    }
  }

  lemma {:induction false} LowBit(v: nat, b: nat, n: nat, k: nat)
    requires k < n
    ensures BitOf(Pow2(n) * v + b, k) == BitOf(b, k)
  {
    var half := Pow2(n - 1) * v;
    assert Pow2(n) * v == 2 * half;
    if k > 0 {
      LowBit(v, b / 2, n - 1, k - 1);
      assert (2 * half + b) / 2 == half + b / 2;
    }
  }

  lemma EightHalvings(v: nat, b: Byte)
    ensures Halved(256 * v + b, 8) == v
  {
    HalvedIsQuotient(256 * v + b, 8);
    assert Pow2(8) == 256;
  }

  /** The bit a tree turns by is a bit of the key as a number. */
  lemma {:induction false} KeyBit(key: seq<Byte>, pos: nat)
    requires pos < 8 * |key|
    ensures IsRightChild(key, pos) == BitOf(Value(key), 8 * |key| - 1 - pos)
  {
    var n := |key| - 1;
    var front, last := key[..n], key[n];
    assert Pow2(8) == 256;
    if pos < 8 * n {
      KeyBit(front, pos);
      BitOfHalved(Value(key), 8, 8 * n - 1 - pos);
      EightHalvings(Value(front), last);
      assert front[pos / 8] == key[pos / 8];
    } else {
      LowBit(Value(front), last, 8, 8 * |key| - 1 - pos);
    }
  }

  /** The turn at a level is the bit of that weight in the leaf's number. */
  lemma TurnSpellsIndex(depth: nat, key: seq<Byte>, level: nat)
    requires |key| == KeyLength(depth) && level < depth
    ensures Right(depth, key, level) <==> Halved(Index(depth, key), level) % 2 == 1
  {
    KeyBit(key, depth - 1 - level);
    BitOfHalved(Value(key), 8 * |key| - depth, level);
    BitOfHalved(Index(depth, key), level, 0);
  }

  lemma {:induction false} PowersAgree(k: nat)
    ensures Pow256(k) == Pow2(8 * k)
  {
    if k > 0 {
      PowersAgree(k - 1);
      PowSum(8, 8 * (k - 1));
      assert Pow2(8) == 256;
    }
  }

  lemma IndexBelow(depth: nat, key: seq<Byte>)
    requires |key| == KeyLength(depth)
    ensures Index(depth, key) < Pow2(depth)
  {
    ValueBound(key);
    PowersAgree(|key|);
    HalvedBelow(Value(key), 8 * |key| - depth, depth);
  }

  // Rows of hashes.

  /** `n` hashes, `x` at position `i` and `d` elsewhere. */
  function Row(n: nat, i: nat, x: Hash, d: Hash): (r: seq<Hash>)
    ensures |r| == n && forall j :: 0 <= j < n ==> r[j] == if j == i then x else d
  {
    seq(n, j requires 0 <= j < n => if j == i then x else d)
  }

  lemma ParentsOfRow(sha: HashFunction, n: nat, i: nat, x: Hash, d: Hash)
    requires i < 2 * n
    ensures Parents(sha, Row(2 * n, i, x, d)) ==
      Row(n, i / 2, if i % 2 == 1 then HashPair(sha, d, x) else HashPair(sha, x, d), HashPair(sha, d, d))
  {
  }

  lemma {:induction false} PowPositive(k: nat)
    ensures Pow2(k) > 0
  {
    if k > 0 {
      PowPositive(k - 1);
    }
  }

  /** The row at a level of a tree in which only `key` has a leaf of its own. */
  function RowAt(sha: HashFunction, depth: nat, key: seq<Byte>, leaf: Hash, level: nat): (r: seq<Hash>)
    requires |key| == KeyLength(depth) && level <= depth
    ensures r != []
  {
    PowPositive(depth - level);
    Row(Pow2(depth - level), Halved(Index(depth, key), level), HashAt(sha, depth, key, leaf, level), DefaultHash(sha, level))
  }

  lemma RowAbove(sha: HashFunction, depth: nat, key: seq<Byte>, leaf: Hash, level: nat)
    requires |key| == KeyLength(depth) && level < depth
    ensures Parents(sha, RowAt(sha, depth, key, leaf, level)) == RowAt(sha, depth, key, leaf, level + 1)
    ensures |RowAt(sha, depth, key, leaf, level)| > 1
  {
    var i, n := Halved(Index(depth, key), level), Pow2(depth - level - 1);
    PowPositive(depth - level - 1);
    IndexBelow(depth, key);
    HalvedBelow(Index(depth, key), level, depth - level);
    HalvedMore(Index(depth, key), level);
    HashAbove(sha, depth, key, leaf, level);
    TurnSpellsIndex(depth, key, level);
    ParentsOfRow(sha, n, i, HashAt(sha, depth, key, leaf, level), DefaultHash(sha, level));
  }

  /** The row above is made of the pairs of this one. */
  ghost predicate PairsUp(sha: HashFunction, rows: seq<seq<Hash>>, l: nat)
    requires l + 1 < |rows|
  {
    |rows[l]| > 1 && rows[l + 1] == Parents(sha, rows[l])
  }

  /** Rows of which each is made of the pairs of the one below have one root. */
  lemma {:induction false} RowsShareRoot(sha: HashFunction, rows: seq<seq<Hash>>, i: nat)
    requires i < |rows| && rows[|rows| - 1] != []
    requires forall l: nat :: l + 1 < |rows| ==> PairsUp(sha, rows, l)
    ensures rows[i] != [] && Root(sha, rows[i]) == Root(sha, rows[|rows| - 1])
    decreases |rows| - i
  {
    if i < |rows| - 1 {
      RowsShareRoot(sha, rows, i + 1);
      assert PairsUp(sha, rows, i);
    }
  }

  lemma TopRow(sha: HashFunction, depth: nat, key: seq<Byte>, leaf: Hash)
    requires |key| == KeyLength(depth)
    ensures RowAt(sha, depth, key, leaf, depth) == [HashAt(sha, depth, key, leaf, depth)]
  {
    IndexBelow(depth, key);
    HalvedBelow(Index(depth, key), depth, 0);
  }

  lemma RowPairsUp(sha: HashFunction, depth: nat, key: seq<Byte>, leaf: Hash, rows: seq<seq<Hash>>, l: nat)
    requires |key| == KeyLength(depth) && l < depth && |rows| == depth + 1
    requires rows[l] == RowAt(sha, depth, key, leaf, l) && rows[l + 1] == RowAt(sha, depth, key, leaf, l + 1)
    ensures PairsUp(sha, rows, l)
  {
    RowAbove(sha, depth, key, leaf, l);
  }

  lemma AllRows(sha: HashFunction, depth: nat, key: seq<Byte>, leaf: Hash) returns (rows: seq<seq<Hash>>)
    requires |key| == KeyLength(depth)
    ensures |rows| == depth + 1 && forall l: nat :: l < depth ==> PairsUp(sha, rows, l)
    ensures forall l: nat {:trigger rows[l]} :: l <= depth ==> rows[l] == RowAt(sha, depth, key, leaf, l)
  {
    rows := seq(depth + 1, l requires 0 <= l <= depth => RowAt(sha, depth, key, leaf, l));
    forall l: nat | l < depth ensures PairsUp(sha, rows, l) {
      RowPairsUp(sha, depth, key, leaf, rows, l);
    }
  }

  lemma RootOfRow(sha: HashFunction, depth: nat, key: seq<Byte>, leaf: Hash)
    requires |key| == KeyLength(depth)
    ensures Root(sha, RowAt(sha, depth, key, leaf, 0)) == HashAt(sha, depth, key, leaf, depth)
  {
    var rows := AllRows(sha, depth, key, leaf);
    TopRow(sha, depth, key, leaf);
    RootOfRows(sha, rows, rows[0], rows[depth], HashAt(sha, depth, key, leaf, depth));
  }

  lemma RootOfRows(sha: HashFunction, rows: seq<seq<Hash>>, first: seq<Hash>, last: seq<Hash>, top: Hash)
    requires rows != [] && rows[0] == first && rows[|rows| - 1] == last == [top]
    requires forall l: nat :: l + 1 < |rows| ==> PairsUp(sha, rows, l)
    ensures first != [] && Root(sha, first) == top
  {
    RowsShareRoot(sha, rows, 0);
  }

  /** All leaves of the tree, with one value set. */
  function Leaves(sha: HashFunction, depth: nat, key: seq<Byte>, value: seq<Byte>): (r: seq<Hash>)
    requires |key| == KeyLength(depth)
    ensures |r| == Pow2(depth) > 0
    ensures forall j :: 0 <= j < |r| ==> r[j] == if j == Index(depth, key) then sha(value) else sha([])
  {
    PowPositive(depth);
    Row(Pow2(depth), Index(depth, key), sha(value), sha([]))
  }

  lemma LonelyRoot(sha: HashFunction, depth: nat, key: seq<Byte>, value: seq<Byte>)
    requires |key| == KeyLength(depth)
    ensures Fold(sha, sha(value), EmptySteps(sha, depth, key)) == Root(sha, Leaves(sha, depth, key, value))
  {
    WholePath(sha, depth, key, sha(value));
    RootOfRow(sha, depth, key, sha(value));
    assert EmptySteps(sha, depth, key)[..0] == [];
    assert RowAt(sha, depth, key, sha(value), 0) == Leaves(sha, depth, key, value);
  }

  /** After one call on a fresh tree the root is that of the whole row of leaves: the value's hash at the
      place its key spells, the hash of the empty string everywhere else. */
  lemma FirstRoot(sha: HashFunction, depth: nat, key: seq<Byte>, value: seq<Byte>, after: Nodes, root: Hash)
    requires |key| == KeyLength(depth) && Written(sha, depth, map[], after, key, value, root)
    ensures root == Root(sha, Leaves(sha, depth, key, value))
  {
    LonelyRoot(sha, depth, key, value);
  }

  ghost predicate AllDefault(sha: HashFunction, row: seq<Hash>, level: nat) {
    forall j :: 0 <= j < |row| ==> row[j] == DefaultHash(sha, level)
  }

  lemma ParentsOfDefaults(sha: HashFunction, level: nat, row: seq<Hash>, n: nat)
    requires |row| == 2 * n && n > 0 && AllDefault(sha, row, level)
    ensures AllDefault(sha, Parents(sha, row), level + 1) && |Parents(sha, row)| == n
    ensures Root(sha, row) == Root(sha, Parents(sha, row))
  {
  }

  /** A row of default hashes has the default hash above it for its root: before any call, with level 0. */
  lemma {:induction false} FreshRoot(sha: HashFunction, level: nat, depth: nat, row: seq<Hash>)
    requires level <= depth && row != [] && |row| == Pow2(depth - level) && AllDefault(sha, row, level)
    ensures Root(sha, row) == DefaultHash(sha, depth)
    decreases depth - level
  {
    if level < depth {
      ParentsOfDefaults(sha, level, row, Pow2(depth - level - 1));
      FreshRoot(sha, level + 1, depth, Parents(sha, row));
    } else {
      assert row[0] == DefaultHash(sha, level);
    }
  }

  /** The path bits of a proof spell the leaf's number, lowest bit first: a zero bit has its sibling on the right. */
  lemma BitsSpellIndex(sha: HashFunction, nodes: Nodes, depth: nat, key: seq<Byte>, level: nat)
    requires |key| == KeyLength(depth) && level < depth
    ensures Pow2(level) > 0
    ensures ProofSteps(sha, nodes, depth, key)[level].siblingIsRight <==> Index(depth, key) / Pow2(level) % 2 == 0
  {
    TurnSpellsIndex(depth, key, level);
    HalvedIsQuotient(Index(depth, key), level);
  }

  lemma IndexIsQuotient(depth: nat, key: seq<Byte>)
    requires |key| == KeyLength(depth)
    ensures Pow2(8 * |key| - depth) > 0 && Index(depth, key) == Value(key) / Pow2(8 * |key| - depth)
    ensures Index(depth, key) < Pow2(depth)
  {
    HalvedIsQuotient(Value(key), 8 * |key| - depth);
    IndexBelow(depth, key);
  }

  /** The same with a tree in use. */
  method SetOnce(sha: HashFunction, depth: nat, key: seq<Byte>, value: seq<Byte>) returns (proof: MerkleProof)
    requires |key| == KeyLength(depth)
    ensures proof.leafHash == sha(value) && proof.rootHash == Root(sha, Leaves(sha, depth, key, value))
    ensures |proof.pathBits| == depth
    ensures forall i: nat :: i < depth ==>
      Pow2(i) > 0 && (proof.pathBits[i] <==> Index(depth, key) / Pow2(i) % 2 == 0)
  {
    var t := new SparseMerkleTree(sha, depth);
    var err := t.Set(sha, Some(key), value);
    FirstRoot(sha, depth, key, value, t.nodes, t.root);
    var r := t.GenerateProof(sha, Some(key));
    proof := r.proof;
    forall i: nat | i < depth ensures Pow2(i) > 0 && (proof.pathBits[i] <==> Index(depth, key) / Pow2(i) % 2 == 0) {
      BitsSpellIndex(sha, t.nodes, depth, key, i);
      assert StepsOf(proof)[i] == ProofSteps(sha, t.nodes, depth, key)[i];
    }
  }
}
