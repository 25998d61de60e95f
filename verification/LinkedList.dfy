/** Singly linked lists of mutable nodes: cycle detection on arbitrary finite pointer graphs, and the
    in-place reversals with the palindrome check that is built on them. */
module LinkedList {

  /** The values are never written after a node is made; the pointers are. */
  class ListNode {
    const val: int
    var next: ListNode?

    constructor (val: int, next: ListNode?)
      ensures this.val == val && this.next == next
    {
      this.val := val;
      this.next := next;
    }
  }

  /** No pointer leaves the nodes of `S`. */
  ghost predicate Closed(S: set<ListNode>)
    reads S
  {
    forall n :: n in S && n.next != null ==> n.next in S
  }

  /** The node reached from `head` after `k` steps, or null if the list ends before. */
  ghost function After(head: ListNode?, k: nat, S: set<ListNode>): (r: ListNode?)
    requires Closed(S) && (head != null ==> head in S)
    reads S
    ensures r != null ==> r in S
  {
    if k == 0 then head
    else
      var p := After(head, k - 1, S);
      if p == null then null else p.next
  }

  /** Following the pointers from `head` comes back to a node. */
  ghost predicate Revisits(head: ListNode?, S: set<ListNode>, i: nat, j: nat)
    requires Closed(S) && (head != null ==> head in S)
    reads S
  {
    i < j && After(head, i, S) != null && After(head, i, S) == After(head, j, S)
  }

  lemma {:induction false} StaysNull(head: ListNode?, k: nat, m: nat, S: set<ListNode>)
    requires Closed(S) && (head != null ==> head in S)
    requires k <= m && After(head, k, S) == null
    ensures After(head, m, S) == null
  {
    if k < m {
      StaysNull(head, k, m - 1, S);
    }
  }

  /** Equal nodes have equal futures. */
  lemma {:induction false} SameFuture(head: ListNode?, i: nat, j: nat, d: nat, S: set<ListNode>)
    requires Closed(S) && (head != null ==> head in S)
    requires After(head, i, S) == After(head, j, S)
    ensures After(head, i + d, S) == After(head, j + d, S)
  {
    if d > 0 {
      SameFuture(head, i, j, d - 1, S);
    }
  }

  /** Once in a cycle, the list never ends. */
  lemma {:induction false} NeverEnds(head: ListNode?, i: nat, j: nat, m: nat, S: set<ListNode>)
    requires Closed(S) && (head != null ==> head in S) && Revisits(head, S, i, j)
    ensures After(head, m, S) != null
    decreases m
  {
    if m <= i {
      if After(head, m, S) == null {
        StaysNull(head, m, i, S);
      }
    } else if m <= j {
      if After(head, m, S) == null {
        StaysNull(head, m, j, S);
      }
    } else {
      SameFuture(head, i, j, m - j, S);
      NeverEnds(head, i, j, i + (m - j), S);
    }
  }

  /** Multiples of the cycle's length lead around to the same node. */
  lemma {:induction false} Around(head: ListNode?, i: nat, j: nat, at: nat, rounds: nat, S: set<ListNode>)
    requires Closed(S) && (head != null ==> head in S) && Revisits(head, S, i, j) && i <= at
    ensures After(head, at + rounds * (j - i), S) == After(head, at, S)
  {
    if rounds > 0 {
      var before := at + (rounds - 1) * (j - i);
      assert before + (j - i) == at + rounds * (j - i);
      Around(head, i, j, at, rounds - 1, S);
      SameFuture(head, i, j, before - i, S);
    }
  }

  ghost function Visited(head: ListNode?, k: nat, S: set<ListNode>): (r: set<ListNode>)
    requires Closed(S) && (head != null ==> head in S)
    reads S
    ensures r <= S
  {
    if k == 0 then {}
    else
      var p := After(head, k - 1, S);
      Visited(head, k - 1, S) + if p == null then {} else {p}
  }

  lemma {:induction false} VisitedAt(head: ListNode?, k: nat, S: set<ListNode>, n: ListNode) returns (i: nat)
    requires Closed(S) && (head != null ==> head in S) && n in Visited(head, k, S)
    ensures i < k && After(head, i, S) == n
  {
    if After(head, k - 1, S) == n {
      i := k - 1;
    } else {
      i := VisitedAt(head, k - 1, S, n);
    }
  }

  /** Among more nodes than there are, one occurs twice, unless the list ends. */
  lemma {:induction false} EndsOrRevisits(head: ListNode?, k: nat, S: set<ListNode>) returns (i: nat, j: nat)
    requires Closed(S) && (head != null ==> head in S)
    ensures After(head, k, S) == null || Revisits(head, S, i, j) || |Visited(head, k + 1, S)| == k + 1
  {
    i, j := 0, 0;
    if k > 0 {
      i, j := EndsOrRevisits(head, k - 1, S);
      if After(head, k - 1, S) == null {
        StaysNull(head, k - 1, k, S);
      } else if !Revisits(head, S, i, j) && After(head, k, S) != null && After(head, k, S) in Visited(head, k, S) {
        i := VisitedAt(head, k, S, After(head, k, S));
        j := k;
      }
    }
  }

  /** Tells when the tortoise and the hare are done at the latest: after `done` rounds the hare has
      reached the end, or both stand on the same node of a cycle. */
  lemma RoundsNeeded(head: ListNode?, S: set<ListNode>) returns (cyclic: bool, i: nat, j: nat, done: nat)
    requires Closed(S) && (head != null ==> head in S)
    ensures cyclic ==> Revisits(head, S, i, j) && done >= 1 && After(head, done, S) == After(head, 2 * done, S)
    ensures !cyclic ==> After(head, 2 * done, S) == null
  {
    i, j := EndsOrRevisits(head, |S|, S);
    cyclic := Revisits(head, S, i, j);
    if cyclic {
      done := CyclicRounds(head, i, j, S);
    } else {
      done := |S|;
      if After(head, |S|, S) != null {
        TooMany(Visited(head, |S| + 1, S), S);
      }
      StaysNull(head, |S|, 2 * |S|, S);
    }
  }

  /** The first multiple of the cycle's length from position `i` on. */
  lemma CyclicRounds(head: ListNode?, i: nat, j: nat, S: set<ListNode>) returns (done: nat)
    requires Closed(S) && (head != null ==> head in S) && Revisits(head, S, i, j)
    ensures done >= 1 && After(head, done, S) == After(head, 2 * done, S)
  {
    done := Multiple(i + 1, j - i);
    Around(head, i, j, done, i + 1, S);
  }

  lemma Multiple(a: nat, b: nat) returns (p: nat)
    requires a >= 1 && b >= 1
    ensures p == a * b && p >= a
  {
    p := a * b;
  }

  lemma TooMany(A: set<ListNode>, S: set<ListNode>)
    requires A <= S
    ensures |A| <= |S|
  {
    assert S == A + (S - A);
  }

  lemma EndedBy(head: ListNode?, done: nat, k: nat, S: set<ListNode>)
    requires Closed(S) && (head != null ==> head in S) && After(head, 2 * done, S) == null
    ensures done <= k ==> After(head, 2 * k, S) == null
  {
    if done <= k {
      StaysNull(head, 2 * done, 2 * k, S);
    }
  }

  /** The tortoise moves one step a round and the hare two; they meet exactly if there is a cycle. */
  method HasCycle(head: ListNode?, ghost S: set<ListNode>) returns (r: bool)
    requires Closed(S) && (head != null ==> head in S)
    ensures r <==> exists i: nat, j: nat :: Revisits(head, S, i, j)
  {
    ghost var cyclic, i, j, done := RoundsNeeded(head, S);
    var fast, slow := head, head;
    ghost var k: nat := 0;
    while fast != null && fast.next != null
      invariant slow == After(head, k, S) && fast == After(head, 2 * k, S)
      invariant k < done || (!cyclic && fast == null)
      decreases done - k
    {
      if After(head, k, S) == null {
        StaysNull(head, k, 2 * k, S);
      }
      assert After(head, 2 * k + 1, S) == fast.next;
      slow := slow.next;
      fast := fast.next.next;
      k := k + 1;
      if fast == slow {
        if slow == null {
          StaysNull(head, k, 2 * k - 1, S);
        }
        assert Revisits(head, S, k, 2 * k);
        return true;
      }
      if !cyclic {
        EndedBy(head, done, k, S);
      }
    }
    forall a: nat, b: nat ensures !Revisits(head, S, a, b) {
      if Revisits(head, S, a, b) {
        NeverEnds(head, a, b, 2 * k, S);
        NeverEnds(head, a, b, 2 * k + 1, S);
      }
    }
    return false;
  }

  /** The node at position `i`, or null outside. */
  ghost function At(ns: seq<ListNode>, i: int): ListNode? {
    if 0 <= i < |ns| then ns[i] else null
  }

  /** The pointer at position `i` leads one position on. */
  ghost predicate Linked(ns: seq<ListNode>, i: int)
    requires 0 <= i < |ns|
    reads ns[i]
  {
    ns[i].next == At(ns, i + 1)
  }

  /** The pointer at position `i` leads one position back. */
  ghost predicate LinkedBack(ns: seq<ListNode>, i: int)
    requires 0 <= i < |ns|
    reads ns[i]
  {
    ns[i].next == At(ns, i - 1)
  }

  ghost predicate Distinct(ns: seq<ListNode>) {
    forall i, j :: 0 <= i < j < |ns| ==> ns[i] != ns[j]
  }

  /** `ns` are the nodes of the list that starts at `head`, in order, and the list ends. */
  ghost predicate Chain(head: ListNode?, ns: seq<ListNode>)
    reads ns
  {
    && head == At(ns, 0) && Distinct(ns)
    && forall i {:trigger Linked(ns, i)} :: 0 <= i < |ns| ==> Linked(ns, i)
  }

  ghost function Reversed(ns: seq<ListNode>): (r: seq<ListNode>)
    ensures |r| == |ns| && forall i :: 0 <= i < |ns| ==> r[i] == ns[|ns| - 1 - i]
  {
    seq(|ns|, i requires 0 <= i < |ns| => ns[|ns| - 1 - i])
  }

  /** Turns the pointers around one by one; the same nodes, in reverse. */
  method ReverseList(head: ListNode?, ghost ns: seq<ListNode>) returns (r: ListNode?)
    requires Chain(head, ns)
    modifies ns`next
    ensures Chain(r, Reversed(ns))
  {
    var prev: ListNode? := null;
    var curr := head;
    ghost var k := 0;
    while curr != null
      invariant k <= |ns| && curr == At(ns, k) && prev == At(ns, k - 1)
      invariant forall i {:trigger LinkedBack(ns, i)} :: 0 <= i < k ==> LinkedBack(ns, i)
      invariant forall i {:trigger Linked(ns, i)} :: k <= i < |ns| ==> Linked(ns, i)
      decreases |ns| - k
    {
      assert Linked(ns, k);
      var next := curr.next;
      curr.next := prev;
      assert LinkedBack(ns, k);
      prev := curr;
      curr := next;
      k := k + 1;
    }
    ghost var back := Reversed(ns);
    forall i | 0 <= i < |ns| ensures Linked(back, i) {
      assert LinkedBack(ns, |ns| - 1 - i);
    }
    return prev;
  }

  /** The same by recursion: the tail is reversed first and the head hung on at its end. */
  method ReverseListRecursive(head: ListNode?, ghost ns: seq<ListNode>) returns (r: ListNode?)
    requires Chain(head, ns)
    modifies ns`next
    ensures Chain(r, Reversed(ns))
    decreases |ns|
  {
    assert ns != [] ==> Linked(ns, 0);
    if head == null || head.next == null {
      assert ns != [] ==> Linked(Reversed(ns), 0);
      return head;
    }
    ghost var tail := ns[1..];
    TailChain(ns, 1);
    var newHead := ReverseListRecursive(head.next, tail);
    ghost var back := Reversed(tail);
    assert back[|back| - 1] == ns[1] && head.next == ns[1];
    head.next.next := head;
    head.next := null;
    assert Reversed(ns) == back + [head];
    forall i | 0 <= i < |ns| ensures Linked(Reversed(ns), i) {
      if i < |back| - 1 {
        assert Linked(back, i);
      }
    }
    return newHead;
  }

  /** From any position on a list is a list, and nothing before points into it but the last pointer. */
  lemma TailChain(ns: seq<ListNode>, h: nat)
    requires h <= |ns| && Chain(At(ns, 0), ns)
    ensures Chain(At(ns, h), ns[h..])
    ensures forall i :: 0 <= i < h ==> ns[i] !in ns[h..]
  {
    forall i | 0 <= i < |ns| - h ensures Linked(ns[h..], i) {
      assert Linked(ns, h + i);
    }
  }

  /** The middle node, the second of two. */
  method FindMiddle(head: ListNode?, ghost ns: seq<ListNode>) returns (r: ListNode?)
    requires Chain(head, ns)
    ensures r == At(ns, |ns| / 2)
  {
    var fast, slow := head, head;
    ghost var k := 0;
    while fast != null && fast.next != null
      invariant 2 * k <= |ns| && slow == At(ns, k) && fast == At(ns, 2 * k)
      decreases |ns| - k
    {
      assert Linked(ns, k) && Linked(ns, 2 * k);
      assert Linked(ns, 2 * k + 1);
      slow := slow.next;
      fast := fast.next.next;
      k := k + 1;
    }
    assert 2 * k < |ns| ==> Linked(ns, 2 * k);
    return slow;
  }

  ghost predicate ReadsSameBackwards(vals: seq<int>) {
    forall i :: 0 <= i < |vals| ==> vals[i] == vals[|vals| - 1 - i]
  }

  function Vals(ns: seq<ListNode>): (vals: seq<int>)
    ensures |vals| == |ns| && forall i :: 0 <= i < |ns| ==> vals[i] == ns[i].val
  {
    seq(|ns|, i requires 0 <= i < |ns| => ns[i].val)
  }

  /** Decides whether the values read the same backwards. The second half is reversed in place and stays
      so: what hangs on `head` afterwards is only the first half and the middle node. */
  method IsPalindrome(head: ListNode?, ghost ns: seq<ListNode>) returns (r: bool)
    requires Chain(head, ns)
    modifies ns`next
    ensures r <==> ReadsSameBackwards(Vals(ns))
    ensures Chain(head, Front(ns))
  {
    ghost var vals, front, back := Vals(ns), Front(ns), Reversed(ns[|ns| / 2..]);
    var reverseSecondHalf := ReverseSecondHalf(head, ns);
    HalfVals(ns, |ns| / 2, front, back);
    ghost var frontVals, backVals := Vals(front), Vals(back);
    r := SameValues(head, reverseSecondHalf, front, back, frontVals, backVals);
    HalfSuffices(vals, frontVals, backVals);
  }

  /** The first half and the middle node. */
  ghost function Front(ns: seq<ListNode>): seq<ListNode> {
    if ns == [] then [] else ns[..|ns| / 2 + 1]
  }

  /** The first two steps of the check; afterwards both halves end in the middle node. */
  method ReverseSecondHalf(head: ListNode?, ghost ns: seq<ListNode>) returns (r: ListNode?)
    requires Chain(head, ns)
    modifies ns`next
    ensures Chain(head, Front(ns)) && Chain(r, Reversed(ns[|ns| / 2..]))
  {
    var middle := FindMiddle(head, ns);
    ghost var h := |ns| / 2;
    TailChain(ns, h);
    FrontLinks(ns, h);
    r := ReverseList(middle, ns[h..]);
    if ns != [] {
      FrontChain(ns, h, Reversed(ns[h..]));
    }
  }

  lemma HalfVals(ns: seq<ListNode>, h: nat, front: seq<ListNode>, back: seq<ListNode>)
    requires h == |ns| / 2 && front == (if ns == [] then [] else ns[..h + 1]) && back == Reversed(ns[h..])
    ensures Vals(front) == Vals(ns)[..|front|]
    ensures |back| == |ns| - h && forall i :: 0 <= i < |back| ==> Vals(back)[i] == Vals(ns)[|ns| - 1 - i]
  {
  }

  /** The links within the first half, seen without the middle node's own. */
  ghost predicate LinksUpTo(ns: seq<ListNode>, h: nat)
    requires h < |ns|
    reads ns[..h]
  {
    forall i {:trigger ns[i].next} :: 0 <= i < h ==> ns[i].next == ns[i + 1]
  }

  lemma FrontLinks(ns: seq<ListNode>, h: nat)
    requires Chain(At(ns, 0), ns) && (h < |ns| || ns == [])
    ensures h < |ns| ==> LinksUpTo(ns, h)
  {
    if h < |ns| {
      forall i | 0 <= i < h ensures ns[i].next == ns[i + 1] {
        assert Linked(ns, i);
      }
    }
  }

  /** The first half still leads up to the middle node, which the reversal has made the last. */
  lemma FrontChain(ns: seq<ListNode>, h: nat, back: seq<ListNode>)
    requires h < |ns| && Distinct(ns) && LinksUpTo(ns, h)
    requires back != [] && Chain(back[0], back) && back[|back| - 1] == ns[h]
    ensures Chain(ns[0], ns[..h + 1])
  {
    var front := ns[..h + 1];
    forall i | 0 <= i < h + 1 ensures Linked(front, i) {
      if i == h {
        assert Linked(back, |back| - 1);
      }
    }
  }

  /** Compares two lists, the first at least as long as the second, until the second ends. */
  method SameValues(
    head: ListNode?, other: ListNode?,
    ghost a: seq<ListNode>, ghost b: seq<ListNode>, ghost va: seq<int>, ghost vb: seq<int>) returns (r: bool)
    requires Chain(head, a) && Chain(other, b) && |b| <= |a| && va == Vals(a) && vb == Vals(b)
    ensures Chain(head, a) && Chain(other, b)
    ensures r <==> va[..|vb|] == vb
  {
    var n, m := head, other;
    ghost var k := 0;
    while n != null && m != null
      invariant k <= |b| && n == At(a, k) && m == At(b, k)
      invariant va[..k] == vb[..k]
      decreases |b| - k
    {
      assert Linked(a, k) && Linked(b, k);
      if n.val != m.val {
        assert va[..|vb|][k] != vb[k];
        return false;
      }
      n := n.next;
      m := m.next;
      k := k + 1;
    }
    return true;
  }

  /** Comparing the front with the reversed second half decides the whole. */
  lemma HalfSuffices(vals: seq<int>, front: seq<int>, back: seq<int>)
    requires |back| == |vals| - |vals| / 2 <= |front| <= |vals| && front == vals[..|front|]
    requires forall i :: 0 <= i < |back| ==> back[i] == vals[|vals| - 1 - i]
    ensures ReadsSameBackwards(vals) <==> front[..|back|] == back
  {
    if front[..|back|] == back {
      forall i | 0 <= i < |vals| ensures vals[i] == vals[|vals| - 1 - i] {
        var k := if i < |back| then i else |vals| - 1 - i;
        assert front[..|back|][k] == back[k];
      }
    }
  }
}
