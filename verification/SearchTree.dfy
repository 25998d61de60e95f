/** Binary search trees as values: listings, the two validity checks, insertion and removal. */
module SearchTree {

  datatype Tree = Leaf | Node(left: Tree, val: int, right: Tree)

  ghost function InOrder(t: Tree): seq<int> {
    match t
    case Leaf => []
    case Node(l, v, r) => InOrder(l) + [v] + InOrder(r)
  }

  ghost predicate Ascending(s: seq<int>) {
    forall i, j :: 0 <= i < j < |s| ==> s[i] < s[j]
  }

  /** A search tree is one that lists its values in strictly ascending order. */
  ghost predicate IsSearchTree(t: Tree) {
    Ascending(InOrder(t))
  }

  datatype Bound = Open | At(v: int)

  predicate AboveMin(min: Bound, v: int) { min.At? ==> min.v < v }

  predicate BelowMax(max: Bound, v: int) { max.At? ==> v < max.v }

  /** The check with bounds, from the root down. */
  predicate IsValidWithin(t: Tree, min: Bound, max: Bound) {
    match t
    case Leaf => true
    case Node(l, v, r) =>
      if (min.At? && v <= min.v) || (max.At? && max.v <= v) then false
      else IsValidWithin(l, min, At(v)) && IsValidWithin(r, At(v), max)
  }

  predicate IsValid(t: Tree) { IsValidWithin(t, Open, Open) }

  /** The check of neighbours in the listing. */
  ghost predicate IsValidInOrder(t: Tree) {
    forall i :: 1 <= i < |InOrder(t)| ==> !(InOrder(t)[i] <= InOrder(t)[i - 1])
  }

  ghost predicate Within(s: seq<int>, min: Bound, max: Bound) {
    forall x :: x in s ==> AboveMin(min, x) && BelowMax(max, x)
  }

  lemma AscendingParts(a: seq<int>, v: int, b: seq<int>)
    ensures Ascending(a + [v] + b) <==>
      Ascending(a) && Ascending(b) && (forall x :: x in a ==> x < v) && (forall x :: x in b ==> v < x)
  {
    var s := a + [v] + b;
    assert s[|a|] == v && (forall i :: 0 <= i < |a| ==> s[i] == a[i]) && (forall i :: 0 <= i < |b| ==> s[|a| + 1 + i] == b[i]);
    if Ascending(s) {
      forall i, j | 0 <= i < j < |b| ensures b[i] < b[j] {
        assert s[|a| + 1 + i] < s[|a| + 1 + j];
      }
      forall x | x in a ensures x < v {
        var i :| 0 <= i < |a| && a[i] == x;
        assert s[i] < s[|a|];
      }
      forall x | x in b ensures v < x {
        var i :| 0 <= i < |b| && b[i] == x;
        assert s[|a|] < s[|a| + 1 + i];
      }
    } else {
      var i, j :| 0 <= i < j < |s| && s[i] >= s[j];
      assert i < |a| ==> s[i] == a[i] && a[i] in a;
      assert j > |a| ==> s[j] == b[j - |a| - 1] && b[j - |a| - 1] in b;
      assert i > |a| ==> s[i] == b[i - |a| - 1];
    }
  }

  lemma {:induction false} WithinBounds(t: Tree, min: Bound, max: Bound)
    ensures IsValidWithin(t, min, max) <==> IsSearchTree(t) && Within(InOrder(t), min, max)
  {
    match t
    case Leaf =>
    case Node(l, v, r) =>
      WithinBounds(l, min, At(v));
      WithinBounds(r, At(v), max);
      AscendingParts(InOrder(l), v, InOrder(r));
      WithinParts(t, min, max);
  }

  lemma WithinParts(t: Tree, min: Bound, max: Bound)
    requires t.Node?
    ensures Within(InOrder(t), min, max) <==>
      Within(InOrder(t.left), min, max) && AboveMin(min, t.val) && BelowMax(max, t.val) && Within(InOrder(t.right), min, max)
  {
    InListing(t, t.val);
    forall x ensures x in InOrder(t) <==> x in InOrder(t.left) || x == t.val || x in InOrder(t.right) {
      InListing(t, x);
    }
  }

  lemma {:induction false} NeighboursSuffice(s: seq<int>, i: nat, j: nat)
    requires forall k :: 1 <= k < |s| ==> s[k - 1] < s[k]
    requires i < j < |s|
    ensures s[i] < s[j]
  {
    if i + 1 < j {
      NeighboursSuffice(s, i, j - 1);
    }
  }

  /** Both checks agree on every tree, and they accept exactly the search trees. */
  lemma ChecksAgree(t: Tree)
    ensures IsValid(t) <==> IsSearchTree(t)
    ensures IsValidInOrder(t) <==> IsSearchTree(t)
  {
    WithinBounds(t, Open, Open);
    var s := InOrder(t);
    if IsValidInOrder(t) {
      forall k | 1 <= k < |s| ensures s[k - 1] < s[k] {
        assert !(s[k] <= s[k - 1]);
      }
      forall i, j | 0 <= i < j < |s| ensures s[i] < s[j] {
        NeighboursSuffice(s, i, j);
      }
    }
  }

  predicate Found(t: Tree, v: int) {
    match t
    case Leaf => false
    case Node(l, x, r) => if x == v then true else if v < x then Found(l, v) else Found(r, v)
  }

  function Inserted(t: Tree, v: int): Tree {
    match t
    case Leaf => Node(Leaf, v, Leaf)
    case Node(l, x, r) =>
      if v == x then t else if v < x then Node(Inserted(l, v), x, r) else Node(l, x, Inserted(r, v))
  }

  lemma InListing(t: Tree, x: int)
    requires t.Node?
    ensures x in InOrder(t) <==> x in InOrder(t.left) || x == t.val || x in InOrder(t.right)
  {
  }

  lemma SearchParts(t: Tree)
    requires t.Node? && IsSearchTree(t)
    ensures IsSearchTree(t.left) && IsSearchTree(t.right)
    ensures (forall x :: x in InOrder(t.left) ==> x < t.val) && (forall x :: x in InOrder(t.right) ==> t.val < x)
  {
    AscendingParts(InOrder(t.left), t.val, InOrder(t.right));
  }

  /** Walking down by comparison finds exactly what the tree lists. */
  lemma {:induction false} FindsExactly(t: Tree, v: int)
    requires IsSearchTree(t)
    ensures Found(t, v) <==> v in InOrder(t)
  {
    if t.Node? {
      SearchParts(t);
      InListing(t, v);
      FindsExactly(t.left, v);
      FindsExactly(t.right, v);
    }
  }

  /** Insertion keeps a search tree and adds exactly the new value. */
  lemma {:induction false} InsertAdds(t: Tree, v: int)
    requires IsSearchTree(t)
    ensures IsSearchTree(Inserted(t, v))
    ensures forall x :: x in InOrder(Inserted(t, v)) <==> x in InOrder(t) || x == v
  {
    match t
    case Leaf =>
      assert InOrder(Inserted(t, v)) == [v];
    case Node(l, x, r) =>
      SearchParts(t);
      InsertAdds(l, v);
      InsertAdds(r, v);
      var u := Inserted(t, v);
      AscendingParts(InOrder(u.left), x, InOrder(u.right));
      forall y ensures y in InOrder(u) <==> y in InOrder(t) || y == v {
        InListing(t, y);
        InListing(u, y);
      }
  }

  /** A list with the first occurrence of `v` taken out. */
  ghost function Without(s: seq<int>, v: int): seq<int> {
    if s == [] then [] else if s[0] == v then s[1..] else [s[0]] + Without(s[1..], v)
  }

  lemma {:induction false} WithoutConcat(a: seq<int>, b: seq<int>, v: int)
    ensures Without(a + b, v) == if v in a then Without(a, v) + b else a + Without(b, v)
  {
    if a == [] {
      assert a + b == b;
    } else {
      assert (a + b)[1..] == a[1..] + b;
      if a[0] != v {
        WithoutConcat(a[1..], b, v);
        assert a == [a[0]] + a[1..];
      }
    }
  }

  lemma {:induction false} WithoutAbsent(s: seq<int>, v: int)
    requires v !in s
    ensures Without(s, v) == s
  {
    if s != [] {
      WithoutAbsent(s[1..], v);
    }
  }

  /** What removing `v` from a search tree has to leave. */
  ghost predicate Removed(before: Tree, v: int, after: Tree) {
    InOrder(after) == Without(InOrder(before), v)
  }

  lemma {:induction false} WithoutAscending(s: seq<int>, v: int)
    requires Ascending(s)
    ensures Ascending(Without(s, v))
    ensures forall x :: x in Without(s, v) <==> x in s && x != v
  {
    if s != [] {
      WithoutAscending(s[1..], v);
      assert s == [s[0]] + s[1..];
      AscendingParts([], s[0], s[1..]);
      assert [] + [s[0]] + s[1..] == s;
      if s[0] != v {
        AscendingParts([], s[0], Without(s[1..], v));
        assert [] + [s[0]] + Without(s[1..], v) == Without(s, v);
      }
    }
  }

  /** So what is left is a search tree with exactly the other values. */
  lemma RemovedIsSearchTree(before: Tree, v: int, after: Tree)
    requires IsSearchTree(before) && Removed(before, v, after)
    ensures IsSearchTree(after) && forall x :: x in InOrder(after) <==> x in InOrder(before) && x != v
  {
    WithoutAscending(InOrder(before), v);
  }

  /** Removing on the side where the value belongs, if it is removed there as it has to be. */
  lemma RemoveLeft(t: Tree, v: int, side: Tree)
    requires t.Node? && v < t.val
    requires IsSearchTree(t.left) ==> Removed(t.left, v, side)
    ensures IsSearchTree(t) ==> Removed(t, v, Node(side, t.val, t.right))
  {
    if IsSearchTree(t) {
      RemoveFromLeft(t, v, side);
    }
  }

  lemma RemoveFromLeft(t: Tree, v: int, side: Tree)
    requires t.Node? && IsSearchTree(t) && v < t.val
    requires IsSearchTree(t.left) ==> Removed(t.left, v, side)
    ensures Removed(t, v, Node(side, t.val, t.right))
  {
    SearchParts(t);
    var a, x, b := InOrder(t.left), t.val, InOrder(t.right);
    WithoutConcat(a + [x], b, v);
    WithoutConcat(a, [x], v);
    WithoutAbsent(b, v);
    WithoutAbsent([x], v);
    if v !in a {
      WithoutAbsent(a, v);
    }
  }

  lemma RemoveRight(t: Tree, v: int, side: Tree)
    requires t.Node? && t.val < v
    requires IsSearchTree(t.right) ==> Removed(t.right, v, side)
    ensures IsSearchTree(t) ==> Removed(t, v, Node(t.left, t.val, side))
  {
    if IsSearchTree(t) {
      RemoveFromRight(t, v, side);
    }
  }

  lemma RemoveFromRight(t: Tree, v: int, side: Tree)
    requires t.Node? && IsSearchTree(t) && t.val < v
    requires IsSearchTree(t.right) ==> Removed(t.right, v, side)
    ensures Removed(t, v, Node(t.left, t.val, side))
  {
    SearchParts(t);
    var a, x, b := InOrder(t.left), t.val, InOrder(t.right);
    WithoutConcat(a + [x], b, v);
  }

  lemma WithoutLast(a: seq<int>, x: int)
    requires x !in a
    ensures Without(a + [x], x) == a
  {
    WithoutConcat(a, [x], x);
    assert Without([x], x) == [];
    assert a + [] == a;
  }

  /** Removing the root's value: the listing loses exactly the middle. */
  lemma RemoveRoot(t: Tree)
    requires t.Node? && IsSearchTree(t)
    ensures Without(InOrder(t), t.val) == InOrder(t.left) + InOrder(t.right)
  {
    SearchParts(t);
    var a, x, b := InOrder(t.left), t.val, InOrder(t.right);
    WithoutLast(a, x);
    assert x in a + [x];
    WithoutConcat(a + [x], b, x);
  }

  function Smallest(t: Tree): int
    requires t.Node?
  {
    if t.left.Leaf? then t.val else Smallest(t.left)
  }

  function Largest(t: Tree): int
    requires t.Node?
  {
    if t.right.Leaf? then t.val else Largest(t.right)
  }

  lemma {:induction false} SmallestIsFirst(t: Tree)
    requires t.Node?
    ensures InOrder(t) != [] && InOrder(t)[0] == Smallest(t)
  {
    if t.left.Node? {
      SmallestIsFirst(t.left);
    }
  }

  lemma {:induction false} LargestIsLast(t: Tree)
    requires t.Node?
    ensures InOrder(t) != [] && InOrder(t)[|InOrder(t)| - 1] == Largest(t)
  {
    if t.right.Node? {
      LargestIsLast(t.right);
    }
  }

  /** Replacing the root's value by its successor and removing that from the right subtree removes the
      root's value from the listing. */
  lemma ReplaceBySuccessor(t: Tree, right: Tree)
    requires t.Node? && IsSearchTree(t) && t.right.Node?
    requires Removed(t.right, Smallest(t.right), right)
    ensures Removed(t, t.val, Node(t.left, Smallest(t.right), right))
  {
    SmallestIsFirst(t.right);
    var a, s := InOrder(t.left), InOrder(t.right);
    assert InOrder(right) == s[1..];
    assert a + [s[0]] + s[1..] == a + s;
    RemoveRoot(t);
  }

  lemma ReplaceByPredecessor(t: Tree, left: Tree)
    requires t.Node? && IsSearchTree(t) && t.left.Node?
    requires Removed(t.left, Largest(t.left), left)
    ensures Removed(t, t.val, Node(left, Largest(t.left), t.right))
  {
    SearchParts(t);
    LargestIsLast(t.left);
    LastWithout(InOrder(t.left));
    PredecessorListing(t, left);
    RemoveRoot(t);
  }

  /** The same with the removal below promised for search trees only. */
  lemma SuccessorReplaced(t: Tree, right: Tree)
    requires t.Node? && t.right.Node?
    requires IsSearchTree(t.right) ==> Removed(t.right, Smallest(t.right), right)
    ensures IsSearchTree(t) ==> Removed(t, t.val, Node(t.left, Smallest(t.right), right))
  {
    if IsSearchTree(t) {
      SearchParts(t);
      ReplaceBySuccessor(t, right);
    }
  }

  lemma PredecessorReplaced(t: Tree, left: Tree)
    requires t.Node? && t.left.Node?
    requires IsSearchTree(t.left) ==> Removed(t.left, Largest(t.left), left)
    ensures IsSearchTree(t) ==> Removed(t, t.val, Node(left, Largest(t.left), t.right))
  {
    if IsSearchTree(t) {
      SearchParts(t);
      ReplaceByPredecessor(t, left);
    }
  }

  lemma PredecessorListing(t: Tree, left: Tree)
    requires t.Node? && t.left.Node? && InOrder(t.left) != []
    requires InOrder(left) == InOrder(t.left)[..|InOrder(t.left)| - 1]
    requires InOrder(t.left)[|InOrder(t.left)| - 1] == Largest(t.left)
    ensures InOrder(Node(left, Largest(t.left), t.right)) == InOrder(t.left) + InOrder(t.right)
  {
    var s := InOrder(t.left);
    assert s == s[..|s| - 1] + [s[|s| - 1]];
  }

  lemma LastIsNew(s: seq<int>)
    requires Ascending(s) && s != []
    ensures s[|s| - 1] !in s[..|s| - 1]
  {
    var last := |s| - 1;
    forall i | 0 <= i < last ensures s[..last][i] != s[last] {
      assert s[i] < s[last];
    }
  }

  lemma LastWithout(s: seq<int>)
    requires Ascending(s) && s != []
    ensures Without(s, s[|s| - 1]) == s[..|s| - 1]
  {
    var last := |s| - 1;
    LastIsNew(s);
    WithoutLast(s[..last], s[last]);
    assert s == s[..last] + [s[last]];
  }
}
