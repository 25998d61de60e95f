/** The integer heaps of data-structures/heap.go. The min heap and the max heap are the same code with
    the comparison turned round, so one class carries the direction. */
module BinaryHeap {
  import opened HeapOrder

  /** Every parent from `lo` on is in order with its children. */
  ghost predicate HeapFrom(ks: seq<Key>, lo: nat) {
    forall c :: 1 <= c < |ks| && Parent(c) >= lo ==> !Before(ks[c], ks[Parent(c)])
  }

  /** `HeapFrom` but for the children of `hole`, which still do not go before the hole's parent. */
  ghost predicate HeapFromBut(ks: seq<Key>, lo: nat, hole: nat) {
    && (forall c :: 1 <= c < |ks| && Parent(c) >= lo && Parent(c) != hole ==> !Before(ks[c], ks[Parent(c)]))
    && (hole > lo ==> Parent(hole) >= lo)
    && forall c :: 1 <= c < |ks| && hole > lo && Parent(c) == hole ==> !Before(ks[c], ks[Parent(hole)])
  }

  /** The child picked by the two strict comparisons, or `i` itself when neither child goes before it. */
  function Target(ks: seq<Key>, i: nat): (j: nat)
    requires i < |ks|
    ensures j < |ks|
  {
    var l, r := 2 * i + 1, 2 * i + 2;
    var t := if l < |ks| && Before(ks[l], ks[i]) then l else i;
    if r < |ks| && Before(ks[r], ks[t]) then r else t
  }

  lemma TargetIsLeast(ks: seq<Key>, i: nat)
    requires i < |ks|
    ensures
      var j := Target(ks, i);
      forall c :: 1 <= c < |ks| && Parent(c) == i ==> !Before(ks[c], ks[j])
  {
    forall c | 1 <= c < |ks| && Parent(c) == i ensures !Before(ks[c], ks[Target(ks, i)]) {
      Children(c, i);
    }
  }

  lemma SiftStep(ks: seq<Key>, lo: nat, i: nat)
    requires lo <= i < |ks| && HeapFromBut(ks, lo, i) && Target(ks, i) != i
    ensures HeapFromBut(Swapped(ks, i, Target(ks, i)), lo, Target(ks, i))
    ensures Target(ks, i) > i
  {
    var j := Target(ks, i);
    var r := Swapped(ks, i, j);
    TargetIsLeast(ks, i);
    ParentOf(i);
    forall c | 1 <= c < |ks| && Parent(c) >= lo && Parent(c) != j ensures !Before(r[c], r[Parent(c)]) {
      if c == i && i > lo {
        assert !Before(ks[j], ks[Parent(i)]);
      }
    }
  }

  lemma SiftStops(ks: seq<Key>, lo: nat, i: nat)
    requires lo <= i < |ks| && HeapFromBut(ks, lo, i) && Target(ks, i) == i
    ensures HeapFrom(ks, lo)
  {
    TargetIsLeast(ks, i);
  }

  lemma SwappedBothWays(ks: seq<Key>, i: nat, j: nat)
    requires i < |ks| && j < |ks|
    ensures Swapped(ks, i, j) == Swapped(ks, j, i)
  {
  }

  class IntHeap {
    var items: seq<int>
    const max: bool

    /** Whether `a` should be higher in the heap than `b`. */
    predicate Less(a: int, b: int) { if max then b < a else a < b }

    ghost function KeyOf(v: int): (k: Key) { Key(if max then -v else v, 0) }

    ghost function Keys(s: seq<int>): (ks: seq<Key>)
      ensures |ks| == |s| && forall i :: 0 <= i < |ks| ==> ks[i] == KeyOf(s[i])
    {
      seq(|s|, i requires 0 <= i < |s| => KeyOf(s[i]))
    }

    ghost predicate Valid()
      reads this
    {
      HeapFrom(Keys(items), 0)
    }

    constructor (max: bool)
      ensures Valid() && items == [] && this.max == max
    {
      items, this.max := [], max;
    }

    method Swap(i: nat, j: nat)
      requires i < |items| && j < |items|
      modifies this
      ensures items == Swapped(old(items), i, j) && multiset(items) == multiset(old(items))
      ensures Keys(items) == Swapped(Keys(old(items)), i, j)
    {
      items := items[i := items[j]][j := items[i]];
      SwappedPermutes(old(items), i, j);
    }

    method SiftDown(start: nat)
      requires start < |items| ==> HeapFromBut(Keys(items), start, start)
      modifies this
      ensures |items| == |old(items)| && multiset(items) == multiset(old(items))
      ensures start < |items| ==> HeapFrom(Keys(items), start)
    {
      var i := start;
      if |items| <= start {
        return;
      }
      while true
        invariant start <= i < |items| == |old(items)| && multiset(items) == multiset(old(items))
        invariant HeapFromBut(Keys(items), start, i)
        decreases |items| - i
      {
        var target := i;
        var l, r := 2 * i + 1, 2 * i + 2;
        if l < |items| && Less(items[l], items[target]) {
          target := l;
        }
        if r < |items| && Less(items[r], items[target]) {
          target := r;
        }
        assert target == Target(Keys(items), i);
        if target == i {
          SiftStops(Keys(items), start, i);
          break;
        }
        SiftStep(Keys(items), start, i);
        Swap(i, target);
        i := target;
      }
    }

    method Push(val: int)
      requires Valid()
      modifies this
      ensures Valid() && multiset(items) == multiset(old(items)) + multiset{val}
    {
      var i := |items|;
      items := items + [val];
      assert IsHeapBut(Keys(items), |items|, i) && BelowOk(Keys(items), |items|, i) by {
        assert Keys(items)[..i] == Keys(old(items));
      }
      BubbleUp(i, val);
    }

    method BubbleUp(start: nat, val: int)
      requires start < |items| && items[start] == val
      requires IsHeapBut(Keys(items), |items|, start) && BelowOk(Keys(items), |items|, start)
      modifies this
      ensures Valid() && multiset(items) == multiset(old(items))
    {
      var i: int := start;
      ghost var n := |items|;
      while 0 < i && Less(val, items[Parent(i)])
        invariant 0 <= i < n == |items| && items[i] == val
        invariant multiset(items) == multiset(old(items))
        invariant IsHeapBut(Keys(items), n, i) && BelowOk(Keys(items), n, i)
      {
        var p := Parent(i);
        SwapUp(Keys(items), n, i);
        SwappedBothWays(Keys(items), i, p);
        Swap(i, p);
        i := p;
      }
      HoleFilled(Keys(items), n, i);
    }

    /** Takes an element that no other one goes before. */
    method Pop() returns (val: int, ok: bool)
      requires Valid()
      modifies this
      ensures Valid() && (ok <==> old(items) != [])
      ensures ok ==> multiset(old(items)) == multiset(items) + multiset{val}
      ensures ok ==> forall v :: v in old(items) ==> if max then v <= val else val <= v
      ensures !ok ==> items == [] && val == 0
    {
      if |items| == 0 {
        return 0, false;
      }
      val := items[0];
      forall v | v in items ensures !Less(v, val) {
        var i :| 0 <= i < |items| && items[i] == v;
        assert IsHeap(Keys(items), |items|);
        RootIsLeast(Keys(items), |items|, i);
      }
      var last := |items| - 1;
      var fVal := items[last];
      ghost var before := items;
      items := items[0 := fVal];
      assert before[0 := fVal][..last] + [before[0]] == Swapped(before, 0, last);
      SwappedPermutes(before, 0, last);
      items := items[..last];
      SiftDown(0);
      ok := true;
    }

    method Heapify(values: seq<int>)
      modifies this
      ensures Valid() && multiset(items) == multiset(values)
    {
      items := values;
      var i := |values| / 2 - 1;
      while 0 <= i
        invariant -1 <= i && 2 * (i + 1) <= |values| == |items|
        invariant multiset(items) == multiset(values) && HeapFrom(Keys(items), i + 1)
      {
        SiftDown(i);
        i := i - 1;
      }
    }
  }
}
