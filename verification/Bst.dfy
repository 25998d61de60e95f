/** The binary search tree of mutable nodes: insertion, Hibbard deletion with a random choice between
    successor and predecessor, and the two in-order traversals. */
module Bst {
  import opened SearchTree

  class TreeNode {
    var val: int
    var left: TreeNode?
    var right: TreeNode?
    ghost var tree: Tree           // the tree that hangs here
    ghost var repr: set<TreeNode>  // holds at least its nodes

    ghost predicate Valid()
      reads this, repr
      ensures Valid() ==> this in repr && tree.Node? && tree.val == val
    {
      && this in repr
      && (left != null ==> left in repr && left.repr <= repr && this !in left.repr && left.Valid())
      && (right != null ==> right in repr && right.repr <= repr && this !in right.repr && right.Valid())
      && (left != null && right != null ==> left.repr !! right.repr)
      && tree == Node(if left == null then Leaf else left.tree, val, if right == null then Leaf else right.tree)
    }

    constructor (val: int)
      ensures Valid() && fresh(repr) && tree == Node(Leaf, val, Leaf)
    {
      this.val := val;
      left := null;
      right := null;
      tree := Node(Leaf, val, Leaf);
      repr := {this};
    }
  }

  ghost function TreeOf(n: TreeNode?): Tree
    reads n
  {
    if n == null then Leaf else n.tree
  }

  ghost function ReprOf(n: TreeNode?): set<TreeNode>
    reads n
  {
    if n == null then {} else n.repr
  }

  ghost predicate ValidSubtree(n: TreeNode?)
    reads n, ReprOf(n)
  {
    n != null ==> n.Valid()
  }

  class BST {
    var root: TreeNode?

    ghost predicate Valid()
      reads this, root, ReprOf(root)
    {
      ValidSubtree(root)
    }

    constructor ()
      ensures Valid() && TreeOf(root) == Leaf
    {
      root := null;
    }

    /** Inserts below `n`, which is only null if the whole tree is empty. */
    method DoInsert(n: TreeNode?, val: int) returns (inserted: bool)
      requires ValidSubtree(n) && (n == null ==> root == null)
      modifies this, ReprOf(n)
      ensures n != null ==> root == old(root) && n.Valid() && fresh(n.repr - old(n.repr))
      ensures n == null ==> root != null && root.Valid() && fresh(root.repr)
      ensures TreeOf(if n == null then root else n) == Inserted(old(TreeOf(n)), val)
      ensures inserted <==> !Found(old(TreeOf(n)), val)
      decreases ReprOf(n)
    {
      if n == null {
        root := new TreeNode(val);
        return true;
      } else if val == n.val {
        return false;
      } else if val < n.val {
        if n.left == null {
          n.left := new TreeNode(val);
          inserted := true;
        } else {
          inserted := DoInsert(n.left, val);
        }
        n.repr := n.repr + n.left.repr;
        n.tree := n.tree.(left := n.left.tree);
      } else {
        if n.right == null {
          n.right := new TreeNode(val);
          inserted := true;
        } else {
          inserted := DoInsert(n.right, val);
        }
        n.repr := n.repr + n.right.repr;
        n.tree := n.tree.(right := n.right.tree);
      }
    }

    method Insert(val: int) returns (inserted: bool)
      requires Valid()
      modifies this, ReprOf(root)
      ensures Valid() && TreeOf(root) == Inserted(old(TreeOf(root)), val)
      ensures inserted <==> !Found(old(TreeOf(root)), val)
    {
      inserted := DoInsert(root, val);
    }

    function DoSearch(n: TreeNode?, val: int): (r: bool)
      requires ValidSubtree(n)
      reads n, ReprOf(n)
      ensures r == Found(TreeOf(n), val)
      decreases ReprOf(n)
    {
      if n == null then false
      else if n.val == val then true
      else if val < n.val then DoSearch(n.left, val)
      else DoSearch(n.right, val)
    }

    /** The next larger node below `n`, if there is one. */
    method Successor(n: TreeNode?) returns (suc: TreeNode?)
      requires ValidSubtree(n)
      ensures suc == null <==> n == null || n.right == null
      ensures suc != null ==> suc.val == Smallest(n.tree.right)
    {
      if n == null || n.right == null {
        return null;
      }
      suc := n.right;
      while suc.left != null
        invariant suc != null && suc.Valid() && Smallest(suc.tree) == Smallest(n.tree.right)
        decreases suc.repr
      {
        suc := suc.left;
      }
    }

    /** The next smaller node below `n`, if there is one. */
    method Predecessor(n: TreeNode?) returns (pred: TreeNode?)
      requires ValidSubtree(n)
      ensures pred == null <==> n == null || n.left == null
      ensures pred != null ==> pred.val == Largest(n.tree.left)
    {
      if n == null || n.left == null {
        return null;
      }
      pred := n.left;
      while pred.right != null
        invariant pred != null && pred.Valid() && Largest(pred.tree) == Largest(n.tree.left)
        decreases pred.repr
      {
        pred := pred.right;
      }
    }

    method ReplaceWithSuccessor(n: TreeNode)
      requires n.Valid() && n.right != null
      modifies n.repr
      ensures n.Valid() && n.repr == old(n.repr)
      ensures old(IsSearchTree(n.tree)) ==> Removed(old(n.tree), old(n.val), n.tree)
      decreases n.repr, 0
    {
      ghost var before := n.tree;
      var suc := Successor(n);
      var v := suc.val;
      var right := DeleteHelper(n.right, v);
      n.val := v;
      n.right := right;
      n.tree := Node(before.left, v, TreeOf(right));
      SuccessorReplaced(before, TreeOf(right));
    }

    method ReplaceWithPredecessor(n: TreeNode)
      requires n.Valid() && n.left != null
      modifies n.repr
      ensures n.Valid() && n.repr == old(n.repr)
      ensures old(IsSearchTree(n.tree)) ==> Removed(old(n.tree), old(n.val), n.tree)
      decreases n.repr, 0
    {
      ghost var before := n.tree;
      var pred := Predecessor(n);
      var v := pred.val;
      var left := DeleteHelper(n.left, v);
      n.val := v;
      n.left := left;
      n.tree := Node(TreeOf(left), v, before.right);
      PredecessorReplaced(before, TreeOf(left));
    }

    /** Removes the value of a node by its successor or its predecessor at random, by the other one if
        that child is missing, and drops a leaf. */
    method HibbardDelete(n: TreeNode) returns (r: TreeNode?)
      requires n.Valid()
      modifies n.repr
      ensures ValidSubtree(r) && ReprOf(r) <= old(n.repr)
      ensures old(IsSearchTree(n.tree)) ==> Removed(old(n.tree), old(n.val), TreeOf(r))
      decreases n.repr, 1
    {
      if IsSearchTree(n.tree) {
        RemoveRoot(n.tree);
      }
      var random: bool := *;
      if random {
        if n.right != null {
          ReplaceWithSuccessor(n);
          return n;
        } else if n.left != null {
          ReplaceWithPredecessor(n);
          return n;
        } else {
          return null;
        }
      } else {
        if n.left != null {
          ReplaceWithPredecessor(n);
          return n;
        } else if n.right != null {
          ReplaceWithSuccessor(n);
          return n;
        } else {
          return null;
        }
      }
    }

    /** Removes the value of `n` itself: a leaf goes, an only child moves up. */
    method DeleteFound(n: TreeNode) returns (r: TreeNode?)
      requires n.Valid()
      modifies n.repr
      ensures ValidSubtree(r) && ReprOf(r) <= old(n.repr)
      ensures old(IsSearchTree(n.tree)) ==> Removed(old(n.tree), old(n.val), TreeOf(r))
      decreases n.repr, 2
    {
      if IsSearchTree(n.tree) {
        RemoveRoot(n.tree);
      }
      if n.left == null && n.right == null {
        return null;
      } else if n.left == null {
        return n.right;
      } else if n.right == null {
        return n.left;
      } else {
        r := HibbardDelete(n);
      }
    }

    /** Removes `val` below `n` and returns what takes the place of `n`. */
    method DeleteHelper(n: TreeNode?, val: int) returns (r: TreeNode?)
      requires ValidSubtree(n)
      modifies ReprOf(n)
      ensures ValidSubtree(r) && ReprOf(r) <= old(ReprOf(n))
      ensures old(IsSearchTree(TreeOf(n))) ==> Removed(old(TreeOf(n)), val, TreeOf(r))
      decreases ReprOf(n), 3
    {
      if n == null {
        return null;
      }
      if val < n.val {
        DeleteInLeft(n, val);
      } else if val == n.val {
        r := DeleteFound(n);
        return;
      } else {
        DeleteInRight(n, val);
      }
      return n;
    }

    method DeleteInLeft(n: TreeNode, val: int)
      requires n.Valid() && val < n.val
      modifies n.repr
      ensures n.Valid() && n.repr == old(n.repr)
      ensures old(IsSearchTree(n.tree)) ==> Removed(old(n.tree), val, n.tree)
      decreases n.repr, 0
    {
      ghost var before := n.tree;
      var left := DeleteHelper(n.left, val);
      n.left := left;
      n.tree := Node(TreeOf(left), before.val, before.right);
      RemoveLeft(before, val, TreeOf(left));
    }

    method DeleteInRight(n: TreeNode, val: int)
      requires n.Valid() && n.val < val
      modifies n.repr
      ensures n.Valid() && n.repr == old(n.repr)
      ensures old(IsSearchTree(n.tree)) ==> Removed(old(n.tree), val, n.tree)
      decreases n.repr, 1
    {
      ghost var before := n.tree;
      var right := DeleteHelper(n.right, val);
      n.right := right;
      n.tree := Node(before.left, before.val, TreeOf(right));
      RemoveRight(before, val, TreeOf(right));
    }

    /** Removes a value; whatever the random choices, the listing loses exactly that value. */
    method Delete(val: int) returns (deleted: bool)
      requires Valid()
      modifies this, ReprOf(root)
      ensures Valid() && (deleted <==> Found(old(TreeOf(root)), val))
      ensures old(IsSearchTree(TreeOf(root))) ==> Removed(old(TreeOf(root)), val, TreeOf(root))
    {
      if !DoSearch(root, val) {
        if IsSearchTree(TreeOf(root)) {
          FindsExactly(TreeOf(root), val);
          WithoutAbsent(InOrder(TreeOf(root)), val);
        }
        return false;
      }
      root := DeleteHelper(root, val);
      return true;
    }

    /** Left, node, right. */
    method InOrderHelperRecursive(n: TreeNode, result: seq<int>) returns (r: seq<int>)
      requires n.Valid()
      ensures r == result + InOrder(n.tree)
      decreases n.repr
    {
      r := result;
      if n.left != null {
        r := InOrderHelperRecursive(n.left, r);
      }
      r := r + [n.val];
      if n.right != null {
        r := InOrderHelperRecursive(n.right, r);
      }
    }

    method InOrderList() returns (r: seq<int>)
      requires Valid()
      ensures r == InOrder(TreeOf(root))
    {
      r := [];
      if root != null {
        r := InOrderHelperRecursive(root, r);
      }
    }

    static ghost function Size(t: Tree): nat {
      match t
      case Leaf => 0
      case Node(l, _, r) => 1 + Size(l) + Size(r)
    }

    /** What the nodes on a stack still have to list: each its value, then what hangs to its right. */
    static ghost function Pending(trees: seq<Tree>): seq<int> {
      if trees == [] then []
      else
        var t := trees[|trees| - 1];
        (if t.Leaf? then [] else [t.val] + InOrder(t.right)) + Pending(trees[..|trees| - 1])
    }

    static ghost function PendingSize(trees: seq<Tree>): nat {
      if trees == [] then 0
      else
        var t := trees[|trees| - 1];
        (if t.Leaf? then 0 else 1 + Size(t.right)) + PendingSize(trees[..|trees| - 1])
    }

    static lemma PushPending(trees: seq<Tree>, t: Tree)
      requires t.Node?
      ensures InOrder(t.left) + Pending(trees + [t]) == InOrder(t) + Pending(trees)
      ensures Size(t.left) + PendingSize(trees + [t]) == Size(t) + PendingSize(trees)
    {
      assert (trees + [t])[..|trees|] == trees;
    }

    /** The nodes of the stack are valid and carry these trees. */
    ghost predicate Stacked(stack: seq<TreeNode>, trees: seq<Tree>)
      reads stack, set n, m | n in stack && m in n.repr :: m
    {
      |stack| == |trees| && forall i :: 0 <= i < |stack| ==> stack[i].Valid() && stack[i].tree == trees[i]
    }

    static lemma PopPending(trees: seq<Tree>)
      requires trees != [] && trees[|trees| - 1].Node?
      ensures
        var (t, below) := (trees[|trees| - 1], trees[..|trees| - 1]);
        && Pending(trees) == [t.val] + (InOrder(t.right) + Pending(below))
        && PendingSize(trees) == 1 + Size(t.right) + PendingSize(below)
    {
    }

    /** Goes as far left as possible and stacks the nodes on the way. */
    method PushLeft(start: TreeNode?, below: seq<TreeNode>, ghost belowTrees: seq<Tree>)
      returns (stack: seq<TreeNode>, ghost trees: seq<Tree>)
      requires ValidSubtree(start) && Stacked(below, belowTrees)
      ensures Stacked(stack, trees) && (start != null || below != [] ==> stack != [])
      ensures Pending(trees) == InOrder(TreeOf(start)) + Pending(belowTrees)
      ensures PendingSize(trees) == Size(TreeOf(start)) + PendingSize(belowTrees)
    {
      stack, trees := below, belowTrees;
      var current := start;
      while current != null
        invariant ValidSubtree(current) && Stacked(stack, trees)
        invariant InOrder(TreeOf(current)) + Pending(trees) == InOrder(TreeOf(start)) + Pending(belowTrees)
        invariant Size(TreeOf(current)) + PendingSize(trees) == Size(TreeOf(start)) + PendingSize(belowTrees)
        invariant current == null && start != null ==> stack != []
        invariant |stack| >= |below|
        decreases Size(TreeOf(current))
      {
        PushPending(trees, current.tree);
        stack := stack + [current];
        trees := trees + [current.tree];
        current := current.left;
      }
    }

    /** The same listing with an explicit stack. */
    method InOrderHelperStack() returns (result: seq<int>)
      requires Valid()
      ensures result == old(InOrder(TreeOf(root)))
    {
      result := [];
      var stack: seq<TreeNode> := [];
      ghost var trees: seq<Tree> := [];
      var current := root;
      ghost var tree := TreeOf(root);
      ghost var all := InOrder(tree);
      while current != null || 0 < |stack|
        invariant ValidSubtree(current) && tree == TreeOf(current) && Stacked(stack, trees)
        invariant result + (InOrder(tree) + Pending(trees)) == all
        decreases Size(tree) + PendingSize(trees)
      {
        stack, trees := PushLeft(current, stack, trees);
        PopPending(trees);
        ghost var top := trees[|trees| - 1];
        current := stack[|stack| - 1];
        stack := stack[..|stack| - 1];
        trees := trees[..|trees| - 1];
        Regroup(result, top.val, InOrder(top.right) + Pending(trees));
        result := result + [current.val];
        current := current.right;
        tree := top.right;
      }
    }

    static lemma Regroup(a: seq<int>, v: int, b: seq<int>)
      ensures a + ([v] + b) == (a + [v]) + b
    {
    }

    /** The check with bounds; a missing bound is open. */
    function IsValidHelper(n: TreeNode?, min: Bound, max: Bound): (r: bool)
      requires ValidSubtree(n)
      reads n, ReprOf(n)
      ensures r == IsValidWithin(TreeOf(n), min, max)
      decreases ReprOf(n)
    {
      if n == null then true
      else if (min.At? && n.val <= min.v) || (max.At? && max.v <= n.val) then false
      else IsValidHelper(n.left, min, At(n.val)) && IsValidHelper(n.right, At(n.val), max)
    }

    /** Whether the tree is a search tree, by the bounds. */
    method IsValid() returns (r: bool)
      requires Valid()
      ensures r <==> IsSearchTree(TreeOf(root))
    {
      ChecksAgree(TreeOf(root));
      r := IsValidHelper(root, Open, Open);
    }

    /** Whether it is, by its listing. */
    method IsValidByListing() returns (r: bool)
      requires Valid()
      ensures r <==> IsSearchTree(old(TreeOf(root)))
    {
      ghost var tree := TreeOf(root);
      var inOrder := InOrderList();
      ChecksAgree(tree);
      var i := 1;
      while i < |inOrder|
        invariant 1 <= i && forall k :: 1 <= k < i && k < |inOrder| ==> !(inOrder[k] <= inOrder[k - 1])
      {
        if inOrder[i] <= inOrder[i - 1] {
          return false;
        }
        i := i + 1;
      }
      return true;
    }
  }
}
