/** The indexed priority queue of the router: container/heap's up, down, Push, Pop and Fix, run in
    place on a slice of node objects that record their own position. */
module PathHeap {
  import opened ChannelGraph
  import opened HeapOrder

  class PathNode {
    const node: NodeID
    var amountToSend: int
    var totalCLTV: int
    var index: int

    constructor (node: NodeID, amountToSend: int, totalCLTV: int)
      ensures this.node == node && this.amountToSend == amountToSend && this.totalCLTV == totalCLTV
    {
      this.node := node;
      this.amountToSend := amountToSend;
      this.totalCLTV := totalCLTV;
      index := 0;
    }

    function SortKey(): Key
      reads this
    {
      Key(amountToSend, totalCLTV)
    }
  }

  class Heap {
    var items: seq<PathNode>

    constructor ()
      ensures items == [] && Valid()
    {
      items := [];
    }

    ghost function Keys(): (ks: seq<Key>)
      reads this, items
      ensures |ks| == |items| && forall i :: 0 <= i < |items| ==> ks[i] == items[i].SortKey()
    {
      seq(|items|, i requires 0 <= i < |items| reads this, items => items[i].SortKey())
    }

    /** Every node records its own position, so no node occurs twice. */
    ghost predicate Indexed()
      reads this, items
    {
      forall i :: 0 <= i < |items| ==> items[i].index == i
    }

    ghost predicate Valid()
      reads this, items
    {
      Indexed() && IsHeap(Keys(), |items|)
    }

    ghost function Members(): set<PathNode>
      reads this
    {
      set n | n in items
    }

    predicate Less(i: nat, j: nat)
      requires i < |items| && j < |items|
      reads this, items
      ensures Less(i, j) == Before(Keys()[i], Keys()[j])
    {
      if items[i].amountToSend != items[j].amountToSend
      then items[i].amountToSend < items[j].amountToSend
      else items[i].totalCLTV < items[j].totalCLTV
    }

    method Swap(i: nat, j: nat)
      requires i < |items| && j < |items| && Indexed()
      modifies this, {items[i], items[j]}`index
      ensures Indexed() && items == Swapped(old(items), i, j) && Members() == old(Members())
      ensures Keys() == Swapped(old(Keys()), i, j)
    {
      items := items[i := items[j]][j := items[i]];
      items[i].index := i;
      items[j].index := j;
      SwappedPermutes(old(items), i, j);
    }

    method Up(start: nat)
      requires start < |items| && Indexed()
      requires IsHeapBut(Keys(), |items|, start) && BelowOk(Keys(), |items|, start)
      modifies this, items`index
      ensures Valid() && |items| == old(|items|) && Members() == old(Members())
    {
      var j: nat := start;
      while true
        invariant j < |items| == old(|items|) && Indexed() && Members() == old(Members())
        invariant IsHeapBut(Keys(), |items|, j) && BelowOk(Keys(), |items|, j)
        decreases j
      {
        var i := if j == 0 then 0 else Parent(j);
        if i == j || !Less(j, i) {
          break;
        }
        SwapUp(Keys(), |items|, j);
        assert items[i] in old(Members()) && items[j] in old(Members());
        Swap(i, j);
        j := i;
      }
      HoleFilled(Keys(), |items|, j);
    }

    /** Sifts position `start` down within the first `n` items; reports whether it moved. */
    method Down(start: nat, n: nat) returns (moved: bool)
      requires start < |items| && n <= |items| && Indexed()
      requires IsHeapBut(Keys(), n, start)
      modifies this, items`index
      ensures Indexed() && |items| == old(|items|) && Members() == old(Members())
      ensures AboveOk(old(Keys()), n, start) ==> IsHeap(Keys(), n)
      ensures moved ==> IsHeap(Keys(), n)
      ensures !moved ==> items == old(items) && Keys() == old(Keys()) && BelowOk(Keys(), n, start)
      ensures items[n..] == old(items)[n..]
    {
      ghost var before := Keys();
      var i: nat := start;
      while true
        invariant start <= i < |items| == old(|items|) && Indexed() && Members() == old(Members())
        invariant IsHeapBut(Keys(), n, i)
        invariant i == start ==> items == old(items) && Keys() == before
        invariant i > start ==> AboveOk(Keys(), n, i)
        invariant items[n..] == old(items)[n..]
        decreases |items| - i
      {
        var j1 := 2 * i + 1;
        if j1 >= n {
          NoChild(Keys(), n, i);
          break;
        }
        var j2 := j1 + 1;
        var j := if j2 < n && Less(j2, j1) then j2 else j1;
        if !Less(j, i) {
          LeastChildAfter(Keys(), n, i, j);
          break;
        }
        SwapLeastChild(Keys(), n, i, j);
        assert items[i] in old(Members()) && items[j] in old(Members());
        ghost var prior := items;
        Swap(i, j);
        SwappedTail(prior, i, j, n);
        i := j;
      }
      moved := i > start;
      if AboveOk(Keys(), n, i) {
        HoleFilled(Keys(), n, i);
      }
    }

    method Push(n: PathNode)
      requires Valid() && n !in items
      modifies this, n`index, items`index
      ensures Valid() && Members() == old(Members()) + {n}
    {
      n.index := |items|;
      items := items + [n];
      assert Keys()[..|items| - 1] == old(Keys());
      assert n in Members();
      Up(|items| - 1);
    }

    /** Removes a node that no other node goes before. */
    method Pop() returns (n: PathNode)
      requires Valid() && items != []
      modifies this, items`index
      ensures Valid() && n in old(Members()) && n !in Members() && n.index == -1
      ensures Members() == old(Members()) - {n}
      ensures forall m :: m in old(Members()) ==> !Before(m.SortKey(), n.SortKey())
      ensures forall m :: m in old(Members()) ==>
        n.amountToSend < m.amountToSend || (n.amountToSend == m.amountToSend && n.totalCLTV <= m.totalCLTV)
    {
      var last := |items| - 1;
      n := items[0];
      LeastOfAll();
      OverwriteMakesHole(Keys(), last + 1, 0, Keys()[last]);
      Swap(0, last);
      assert IsHeapBut(Keys(), last, 0);
      var _ := Down(0, last);
      assert items[last] == n;
      n.index := -1;
      items := items[..last];
    }

    /** Restores the heap after the key at `i` has changed. */
    method Fix(i: nat)
      requires i < |items| && Indexed() && IsHeapBut(Keys(), |items|, i)
      modifies this, items`index
      ensures Valid() && Members() == old(Members())
    {
      var moved := Down(i, |items|);
      if !moved {
        Up(i);
      }
    }

    lemma LeastOfAll()
      requires Valid() && items != []
      ensures forall m :: m in items ==> !Before(m.SortKey(), items[0].SortKey())
    {
      forall m | m in items ensures !Before(m.SortKey(), items[0].SortKey()) {
        var i :| 0 <= i < |items| && items[i] == m;
        RootIsLeast(Keys(), |items|, i);
      }
    }
  }
}
