/** The ordering theory of binary heaps kept in a sequence, at the level of sort keys.
    The payment router, the task scheduler and the two integer heaps all compare their
    elements by such a key, so each of them reuses these lemmas on its own key sequence. */
module HeapOrder {

  /** A sort key: compared by `major` first and by `minor` on a tie. */
  datatype Key = Key(major: int, minor: int)

  /** The strict lexicographic order, which is what every `Less` of the Go code computes. */
  predicate Before(a: Key, b: Key) {
    a.major < b.major || (a.major == b.major && a.minor < b.minor)
  }

  function Parent(i: int): nat
    requires 1 <= i
  {
    (i - 1) / 2
  }

  lemma ParentOf(i: nat)
    ensures Parent(2 * i + 1) == i == Parent(2 * i + 2)
  {
  }

  lemma Children(i: int, parent: int)
    requires 1 <= i && Parent(i) == parent
    ensures i == 2 * parent + 1 || i == 2 * parent + 2
  {
  }

  function Swapped<T>(s: seq<T>, i: nat, j: nat): (r: seq<T>)
    requires i < |s| && j < |s|
  {
    s[i := s[j]][j := s[i]]
  }

  lemma SwappedPermutes<T>(s: seq<T>, i: nat, j: nat)
    requires i < |s| && j < |s|
    ensures multiset(Swapped(s, i, j)) == multiset(s)
    ensures forall x :: x in Swapped(s, i, j) <==> x in s
  {
    assert forall x :: x in Swapped(s, i, j) <==> x in multiset(Swapped(s, i, j));
    assert forall x :: x in s <==> x in multiset(s);
  }

  lemma SwappedTail<T>(s: seq<T>, i: nat, j: nat, n: nat)
    requires i < n <= |s| && j < n
    ensures Swapped(s, i, j)[n..] == s[n..]
  {
  }

  /** The first `n` keys form a heap: no child goes before its parent. */
  ghost predicate IsHeap(ks: seq<Key>, n: nat)
    requires n <= |ks|
  {
    forall i :: 1 <= i < n ==> !Before(ks[i], ks[Parent(i)])
  }

  /** A heap but for position `hole`, whose key may be wrong with respect to its parent and its
      children; the children still do not go before the hole's parent. */
  ghost predicate IsHeapBut(ks: seq<Key>, n: nat, hole: nat)
    requires n <= |ks|
  {
    && (forall i :: 1 <= i < n && i != hole && Parent(i) != hole ==> !Before(ks[i], ks[Parent(i)]))
    && (forall i :: 1 <= i < n && 1 <= hole && Parent(i) == hole ==> !Before(ks[i], ks[Parent(hole)]))
  }

  /** The children of `hole` do not go before it. */
  ghost predicate BelowOk(ks: seq<Key>, n: nat, hole: nat)
    requires n <= |ks|
  {
    forall i :: 1 <= i < n && Parent(i) == hole ==> !Before(ks[i], ks[hole])
  }

  /** The hole does not go before its parent. */
  ghost predicate AboveOk(ks: seq<Key>, n: nat, hole: nat)
    requires n <= |ks|
  {
    1 <= hole < n ==> !Before(ks[hole], ks[Parent(hole)])
  }

  lemma HoleFilled(ks: seq<Key>, n: nat, hole: nat)
    requires n <= |ks| && IsHeapBut(ks, n, hole) && BelowOk(ks, n, hole) && AboveOk(ks, n, hole)
    ensures IsHeap(ks, n)
  {
  }

  /** Overwriting one key of a heap leaves a heap but for that position. */
  lemma OverwriteMakesHole(ks: seq<Key>, n: nat, hole: nat, k: Key)
    requires hole < n <= |ks| && IsHeap(ks, n)
    ensures IsHeapBut(ks[hole := k], n, hole)
    ensures Before(k, ks[hole]) ==> BelowOk(ks[hole := k], n, hole)
  {
  }

  /** One step of sifting up: the hole moves to its parent and stays right with what is below. */
  lemma SwapUp(ks: seq<Key>, n: nat, hole: nat)
    requires 1 <= hole < n <= |ks|
    requires IsHeapBut(ks, n, hole) && BelowOk(ks, n, hole)
    requires Before(ks[hole], ks[Parent(hole)])
    ensures IsHeapBut(Swapped(ks, Parent(hole), hole), n, Parent(hole))
    ensures BelowOk(Swapped(ks, Parent(hole), hole), n, Parent(hole))
  {
    var p := Parent(hole);
    var r := Swapped(ks, p, hole);
    forall i | 1 <= i < n
      ensures i != p && Parent(i) != p ==> !Before(r[i], r[Parent(i)])
      ensures Parent(i) == p ==> !Before(r[i], r[p])
      ensures 1 <= p && Parent(i) == p ==> !Before(r[i], r[Parent(p)])
    {
      assert i != hole && Parent(i) == p ==> !Before(ks[i], ks[p]);
      assert 1 <= p ==> !Before(ks[p], ks[Parent(p)]);
    }
  }

  /** One step of sifting down: the hole swaps with a least child and is right with what is above. */
  lemma SwapDown(ks: seq<Key>, n: nat, hole: nat, child: nat)
    requires 1 <= child < n <= |ks| && Parent(child) == hole
    requires IsHeapBut(ks, n, hole)
    requires Before(ks[child], ks[hole])
    requires forall i :: 1 <= i < n && Parent(i) == hole ==> !Before(ks[i], ks[child])
    ensures IsHeapBut(Swapped(ks, hole, child), n, child)
    ensures AboveOk(Swapped(ks, hole, child), n, child)
  {
    var r := Swapped(ks, hole, child);
    forall i | 1 <= i < n
      ensures i != child && Parent(i) != child ==> !Before(r[i], r[Parent(i)])
      ensures Parent(i) == child ==> !Before(r[i], r[hole])
    {
      assert Parent(i) == child ==> !Before(ks[i], ks[child]);
    }
  }

  /** Nothing in a heap goes before its root. */
  lemma {:induction false} RootIsLeast(ks: seq<Key>, n: nat, i: nat)
    requires i < n <= |ks| && IsHeap(ks, n)
    ensures !Before(ks[i], ks[0])
  {
    if i != 0 {
      RootIsLeast(ks, n, Parent(i));
    }
  }

  /** `j` is the child of `i` that the Go code picks: the left one unless the right one goes before it. */
  ghost predicate Picked(ks: seq<Key>, n: nat, i: nat, j: nat)
    requires 2 * i + 1 < n <= |ks|
  {
    j == if 2 * i + 2 < n && Before(ks[2 * i + 2], ks[2 * i + 1]) then 2 * i + 2 else 2 * i + 1
  }

  lemma NoChild(ks: seq<Key>, n: nat, i: nat)
    requires n <= |ks| && 2 * i + 1 >= n
    ensures BelowOk(ks, n, i)
  {
  }

  lemma LeastChildAfter(ks: seq<Key>, n: nat, i: nat, j: nat)
    requires 2 * i + 1 < n <= |ks| && Picked(ks, n, i, j) && !Before(ks[j], ks[i])
    ensures BelowOk(ks, n, i)
  {
    forall c | 1 <= c < n && Parent(c) == i ensures !Before(ks[c], ks[i]) {
      Children(c, i);
    }
  }

  lemma PickedIsLeast(ks: seq<Key>, n: nat, i: nat, j: nat)
    requires 2 * i + 1 < n <= |ks| && Picked(ks, n, i, j)
    ensures 1 <= j < n && Parent(j) == i
    ensures forall c :: 1 <= c < n && Parent(c) == i ==> !Before(ks[c], ks[j])
  {
    ParentOf(i);
    forall c | 1 <= c < n && Parent(c) == i ensures !Before(ks[c], ks[j]) {
      Children(c, i);
    }
  }

  lemma SwapLeastChild(ks: seq<Key>, n: nat, i: nat, j: nat)
    requires 2 * i + 1 < n <= |ks| && Picked(ks, n, i, j) && Before(ks[j], ks[i])
    requires IsHeapBut(ks, n, i)
    ensures IsHeapBut(Swapped(ks, i, j), n, j) && AboveOk(Swapped(ks, i, j), n, j)
  {
    PickedIsLeast(ks, n, i, j);
    SwapDown(ks, n, i, j);
  }
}
