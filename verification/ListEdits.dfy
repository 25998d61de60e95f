/** Merging two lists and removing a node counted from the end, both by rewiring the given nodes behind
    a dummy head. */
module ListEdits {
  import opened LinkedList

  ghost predicate LinkedFrom(ns: seq<ListNode>, lo: int, hi: int)
    requires 0 <= lo && hi <= |ns|
    reads ns
  {
    forall i {:trigger Linked(ns, i)} :: lo <= i < hi ==> Linked(ns, i)
  }

  /** The merge as the Go code picks: the first list's node when its value is less, else the second's. */
  ghost function Merged(a: seq<ListNode>, b: seq<ListNode>): (m: seq<ListNode>)
    ensures |m| == |a| + |b|
  {
    if a == [] then b
    else if b == [] then a
    else if a[0].val < b[0].val then [a[0]] + Merged(a[1..], b)
    else [b[0]] + Merged(a, b[1..])
  }

  lemma {:induction false} MergedHas(a: seq<ListNode>, b: seq<ListNode>, x: ListNode)
    ensures x in Merged(a, b) <==> x in a || x in b
  {
    if a != [] && b != [] {
      if a[0].val < b[0].val { MergedHas(a[1..], b, x); } else { MergedHas(a, b[1..], x); }
    }
  }

  lemma {:induction false} MergedDistinct(a: seq<ListNode>, b: seq<ListNode>)
    requires Distinct(a) && Distinct(b) && forall x :: x in a ==> x !in b
    ensures Distinct(Merged(a, b))
  {
    if a != [] && b != [] {
      if a[0].val < b[0].val {
        MergedDistinct(a[1..], b);
        MergedHas(a[1..], b, a[0]);
      } else {
        MergedDistinct(a, b[1..]);
        MergedHas(a, b[1..], b[0]);
      }
    }
  }

  ghost predicate Sorted(ns: seq<ListNode>) {
    forall i, j :: 0 <= i < j < |ns| ==> ns[i].val <= ns[j].val
  }

  lemma SortedCons(x: ListNode, rest: seq<ListNode>)
    requires Sorted(rest) && forall y :: y in rest ==> x.val <= y.val
    ensures Sorted([x] + rest)
  {
  }

  lemma SortedTail(a: seq<ListNode>)
    requires Sorted(a) && a != []
    ensures Sorted(a[1..]) && forall y :: y in a ==> a[0].val <= y.val
  {
  }

  lemma {:induction false} MergedKeeps(a: seq<ListNode>, b: seq<ListNode>)
    ensures multiset(Merged(a, b)) == multiset(a) + multiset(b)
  {
    if a != [] && b != [] {
      if a[0].val < b[0].val {
        MergedKeeps(a[1..], b);
        HeadApart(a);
      } else {
        MergedKeeps(a, b[1..]);
        HeadApart(b);
      }
    }
  }

  lemma HeadApart(s: seq<ListNode>)
    requires s != []
    ensures multiset(s) == multiset([s[0]]) + multiset(s[1..])
  {
    assert s == [s[0]] + s[1..];
  }

  /** Merging sorted lists gives a sorted list of the same nodes. */
  lemma {:induction false} MergedIsSorted(a: seq<ListNode>, b: seq<ListNode>)
    requires Sorted(a) && Sorted(b)
    ensures Sorted(Merged(a, b)) && multiset(Merged(a, b)) == multiset(a) + multiset(b)
  {
    MergedKeeps(a, b);
    if a != [] && b != [] {
      SortedTail(a);
      SortedTail(b);
      var x, c, d := b[0], a, b[1..];
      if a[0].val < b[0].val {
        x, c, d := a[0], a[1..], b;
      }
      MergedIsSorted(c, d);
      forall y | y in Merged(c, d) ensures x.val <= y.val {
        MergedHas(c, d, y);
      }
      SortedCons(x, Merged(c, d));
    }
  }

  /** Both lists are cut off at the front and linked from there on, up to the dummy's chain in `m`. */
  ghost predicate Merging(
    dummy: ListNode, n: ListNode, m: seq<ListNode>, a: seq<ListNode>, b: seq<ListNode>, i: nat, j: nat)
    requires i <= |a| && j <= |b| && |m| == |a| + |b|
    reads {dummy}, m, a, b
  {
    var k := i + j;
    && m[k..] == Merged(a[i..], b[j..])
    && n == (if k == 0 then dummy else m[k - 1]) && (k > 0 ==> dummy.next == m[0])
    && LinkedFrom(m, 0, k - 1) && LinkedFrom(a, i, |a|) && LinkedFrom(b, j, |b|)
  }

  /** The node written next is in neither remainder. */
  lemma WrittenIsPast(dummy: ListNode, n: ListNode, m: seq<ListNode>, a: seq<ListNode>, b: seq<ListNode>, i: nat, j: nat)
    requires i <= |a| && j <= |b| && |m| == |a| + |b| && Merging(dummy, n, m, a, b, i, j)
    requires Distinct(m) && dummy !in m
    ensures n !in m[i + j..] && n !in a[i..] && n !in b[j..]
    ensures i < |a| && j < |b| ==>
      if a[i].val < b[j].val then m[i + j] == a[i] && m[i + j + 1..] == Merged(a[i + 1..], b[j..])
      else m[i + j] == b[j] && m[i + j + 1..] == Merged(a[i..], b[j + 1..])
  {
    var k := i + j;
    forall x | x in a[i..] || x in b[j..] ensures x in m[k..] && x in m {
      MergedHas(a[i..], b[j..], x);
    }
    if i < |a| && j < |b| {
      assert m[k..][0] == m[k] && m[k..][1..] == m[k + 1..];
      assert a[i..][0] == a[i] && a[i..][1..] == a[i + 1..] && b[j..][0] == b[j] && b[j..][1..] == b[j + 1..];
    }
  }

  /** Hangs `x`, the next node of the merge, on `n`. */
  method Attach(
    dummy: ListNode, n: ListNode, x: ListNode,
    ghost m: seq<ListNode>, ghost a: seq<ListNode>, ghost b: seq<ListNode>, ghost i: nat, ghost j: nat, ghost fromA: bool)
    requires i < |a| && j < |b| && |m| == |a| + |b| && Merging(dummy, n, m, a, b, i, j)
    requires Distinct(m) && dummy !in m && dummy !in a && dummy !in b
    requires fromA == (a[i].val < b[j].val) && x == if fromA then a[i] else b[j]
    modifies n`next
    ensures n.next == x && Linked(a, i) && Linked(b, j)
    ensures Merging(dummy, x, m, a, b, if fromA then i + 1 else i, if fromA then j else j + 1)
  {
    WrittenIsPast(dummy, n, m, a, b, i, j);
    assert a[i] in a[i..] && b[j] in b[j..];
    assert Linked(a, i) && Linked(b, j);
    n.next := x;
    ghost var k := i + j;
    forall t | i <= t < |a| ensures Linked(a, t) {
      assert a[t] in a[i..] && old(Linked(a, t));
    }
    forall t | j <= t < |b| ensures Linked(b, t) {
      assert b[t] in b[j..] && old(Linked(b, t));
    }
    forall t | 0 <= t < k ensures Linked(m, t) {
      if t < k - 1 {
        assert old(Linked(m, t));
      }
    }
  }

  method MergeTwoLists(l1: ListNode?, l2: ListNode?, ghost a: seq<ListNode>, ghost b: seq<ListNode>)
    returns (r: ListNode?)
    requires Chain(l1, a) && Chain(l2, b) && forall x :: x in a ==> x !in b
    modifies a`next, b`next
    ensures Chain(r, Merged(a, b))
  {
    var dummyHead := new ListNode(0, null);
    var n: ListNode, p, q := dummyHead, l1, l2;
    ghost var m := Merged(a, b);
    MergedDistinct(a, b);
    MergedHas(a, b, dummyHead);
    ghost var i: nat, j: nat := 0, 0;
    while p != null && q != null
      invariant i <= |a| && j <= |b| && p == At(a, i) && q == At(b, j)
      invariant (n == dummyHead || n in a || n in b) && fresh(dummyHead)
      invariant Merging(dummyHead, n, m, a, b, i, j)
      invariant if i + j == 0 then dummyHead.next == null else i < |a| || j < |b|
      decreases |a| + |b| - i - j
    {
      if p.val < q.val {
        Attach(dummyHead, n, p, m, a, b, i, j, true);
        n := p;
        p := p.next;
        i := i + 1;
      } else {
        Attach(dummyHead, n, q, m, a, b, i, j, false);
        n := q;
        q := q.next;
        j := j + 1;
      }
    }
    if p != null {
      AttachRest(dummyHead, n, p, m, a, b, i, j);
    } else if q != null {
      AttachRest(dummyHead, n, q, m, a, b, i, j);
    }
    return dummyHead.next;
  }

  /** Hangs what is left of one list on `n` when the other list has ended. */
  method AttachRest(
    dummy: ListNode, n: ListNode, x: ListNode,
    ghost m: seq<ListNode>, ghost a: seq<ListNode>, ghost b: seq<ListNode>, ghost i: nat, ghost j: nat)
    requires i <= |a| && j <= |b| && |m| == |a| + |b| && Merging(dummy, n, m, a, b, i, j)
    requires Distinct(m) && dummy !in m && dummy !in a && dummy !in b
    requires (i < |a| && j == |b| && x == a[i]) || (i == |a| && j < |b| && x == b[j])
    modifies n`next
    ensures Chain(dummy.next, m)
  {
    WrittenIsPast(dummy, n, m, a, b, i, j);
    ghost var k := i + j;
    ghost var c, d := if i < |a| then a else b, if i < |a| then i else j;
    assert m[k..] == c[d..];
    assert m[k..][0] == m[k] && c[d..][0] == c[d];
    n.next := x;
    forall t | 0 <= t < |m| ensures Linked(m, t) {
      if t < k - 1 {
        assert old(Linked(m, t));
      } else if t >= k {
        assert m[k..][t - k] == c[d..][t - k] && old(Linked(c, d + t - k));
        assert t + 1 < |m| ==> m[k..][t + 1 - k] == c[d..][t + 1 - k];
      }
    }
  }

  lemma LinkedSkipping(dd: seq<ListNode>, k: nat)
    requires k + 1 < |dd| && Distinct(dd)
    requires forall i {:trigger Linked(dd, i)} :: 0 <= i < |dd| && i != k ==> Linked(dd, i)
    requires dd[k].next == At(dd, k + 2)
    ensures Chain(At(dd[1..k + 1] + dd[k + 2..], 0), dd[1..k + 1] + dd[k + 2..])
    ensures dd[0].next == At(dd[1..k + 1] + dd[k + 2..], 0)
  {
    var kept := dd[1..k + 1] + dd[k + 2..];
    assert k > 0 ==> Linked(dd, 0);
    forall i | 0 <= i < |kept| ensures Linked(kept, i) {
      if i + 1 < k {
        assert Linked(dd, i + 1);
      } else if i + 1 > k {
        assert Linked(dd, i + 2);
      }
    }
  }

  method RemoveNthFromEnd(head: ListNode?, n: nat, ghost ns: seq<ListNode>) returns (r: ListNode?)
    requires Chain(head, ns) && n >= 1
    modifies ns`next
    ensures n > |ns| ==> r == null && Chain(head, ns)
    ensures n <= |ns| ==> Chain(r, ns[..|ns| - n] + ns[|ns| - n + 1..])
  {
    var dummy := new ListNode(0, head);
    ghost var dd := [dummy] + ns;
    forall i | 0 <= i < |dd| ensures Linked(dd, i) {
      assert i > 0 ==> Linked(ns, i - 1);
    }
    var first: ListNode?, second: ListNode? := dummy, dummy;
    for i := 0 to n + 1
      invariant i <= |dd| && second == At(dd, i)
    {
      if second == null {
        return null;
      }
      assert Linked(dd, i);
      second := second.next;
    }
    ghost var k := 0;
    while second != null
      invariant 0 <= k && n + 1 + k <= |dd| && first == dd[k] && second == At(dd, n + 1 + k)
      decreases |dd| - k
    {
      assert Linked(dd, k) && Linked(dd, n + 1 + k);
      first := first.next;
      second := second.next;
      k := k + 1;
    }
    assert Linked(dd, k) && Linked(dd, k + 1);
    label before:
    first.next := first.next.next;
    forall i | 0 <= i < |dd| && i != k ensures Linked(dd, i) {
      assert old@before(Linked(dd, i));
    }
    LinkedSkipping(dd, k);
    assert dd[1..k + 1] + dd[k + 2..] == ns[..|ns| - n] + ns[|ns| - n + 1..];
    return dummy.next;
  }
}
