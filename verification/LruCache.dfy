/** The least-recently-used cache: a map for lookup and a doubly linked list in order of use. */
module LruCache {

  class ListNode {
    const key: int
    var value: int
    var prev: ListNode?
    var next: ListNode?

    constructor (key: int, value: int)
      ensures this.key == key && this.value == value
    {
      this.key := key;
      this.value := value;
      prev, next := null, null;
    }
  }

  datatype Entry = Entry(key: int, value: int)

  /** What the cache holds, most recently used first. */
  type Recency = seq<Entry>

  ghost predicate Holds(r: Recency, key: int) {
    exists i :: 0 <= i < |r| && r[i].key == key
  }

  /** The position of a key, which occurs at most once. */
  ghost function IndexOf(r: Recency, key: int): nat
    requires Holds(r, key)
    ensures IndexOf(r, key) < |r| && r[IndexOf(r, key)].key == key
  {
    if r[0].key == key then 0 else 1 + IndexOf(r[1..], key)
  }

  function ToFront<T>(s: seq<T>, i: nat): seq<T>
    requires i < |s|
  {
    [s[i]] + s[..i] + s[i + 1..]
  }

  ghost function AfterGet(r: Recency, key: int): Recency {
    if Holds(r, key) then ToFront(r, IndexOf(r, key)) else r
  }

  ghost function Answer(r: Recency, key: int): int {
    if Holds(r, key) then r[IndexOf(r, key)].value else -1
  }

  /** One entry too many drops the last. */
  ghost function Trimmed(grown: Recency, capacity: int): Recency {
    if |grown| > capacity && grown != [] then grown[..|grown| - 1] else grown
  }

  ghost function AfterPut(r: Recency, capacity: int, key: int, value: int): Recency {
    if Holds(r, key) then ToFront(r[IndexOf(r, key) := Entry(key, value)], IndexOf(r, key))
    else Trimmed([Entry(key, value)] + r, capacity)
  }

  lemma PutCases(r: Recency, capacity: int, key: int, value: int)
    ensures Holds(r, key) ==>
      var at := IndexOf(r, key);
      AfterPut(r, capacity, key, value) == ToFront(r[at := Entry(key, value)], at)
    ensures !Holds(r, key) ==> AfterPut(r, capacity, key, value) == Trimmed([Entry(key, value)] + r, capacity)
  {
  }

  ghost predicate DistinctKeys(r: Recency) {
    forall i, j :: 0 <= i < j < |r| ==> r[i].key != r[j].key
  }

  ghost function At(ns: seq<ListNode>, i: int): ListNode? {
    if 0 <= i < |ns| then ns[i] else null
  }

  /** Map and list hold the same nodes, each under its own key. */
  ghost predicate Maps(ns: seq<ListNode>, cache: map<int, ListNode>) {
    && (forall i :: 0 <= i < |ns| ==> ns[i].key in cache && cache[ns[i].key] == ns[i])
    && (forall k :: k in cache ==> cache[k].key == k && cache[k] in ns)
  }

  lemma MapsFront(ns: seq<ListNode>, cache: map<int, ListNode>, n: ListNode)
    requires Maps(ns, cache) && n.key !in cache
    ensures Maps([n] + ns, cache[n.key := n])
  {
  }

  lemma MapsDrop(ns: seq<ListNode>, cache: map<int, ListNode>)
    requires Maps(ns, cache) && ns != [] && forall i, j :: 0 <= i < j < |ns| ==> ns[i] != ns[j]
    ensures Maps(ns[..|ns| - 1], cache - {ns[|ns| - 1].key})
  {
    var last := |ns| - 1;
    var rest := cache - {ns[last].key};
    forall k | k in rest ensures rest[k].key == k && rest[k] in ns[..last] {
      var i :| 0 <= i < |ns| && ns[i] == cache[k];
      assert ns[i] == ns[..last][i];
    }
  }

  ghost function EntriesOf(ns: seq<ListNode>): (r: Recency)
    reads ns
    ensures |r| == |ns| && forall i :: 0 <= i < |r| ==> r[i] == Entry(ns[i].key, ns[i].value)
  {
    seq(|ns|, i requires 0 <= i < |ns| reads ns => Entry(ns[i].key, ns[i].value))
  }

  class LRUCache {
    const capacity: int
    var cache: map<int, ListNode>
    var head: ListNode?
    var tail: ListNode?
    ghost var nodes: seq<ListNode>  // the linked nodes, most recently used first

    ghost predicate Placed(i: int)
      requires 0 <= i < |nodes|
      reads this`nodes, nodes
    {
      nodes[i].prev == At(nodes, i - 1) && nodes[i].next == At(nodes, i + 1)
    }

    /** The pointers spell out `nodes`. */
    ghost predicate Linked()
      reads this`nodes, this`head, this`tail, nodes
    {
      && (forall i, j :: 0 <= i < j < |nodes| ==> nodes[i] != nodes[j])
      && (forall i {:trigger Placed(i)} :: 0 <= i < |nodes| ==> Placed(i))
      && head == At(nodes, 0) && tail == At(nodes, |nodes| - 1)
    }

    ghost predicate Mapped()
      reads this`nodes, this`cache
    {
      Maps(nodes, cache)
    }

    ghost predicate Valid()
      reads this, nodes
    {
      Linked() && Mapped()
    }

    ghost function Contents(): (r: Recency)
      reads this`nodes, nodes
      ensures |r| == |nodes| && forall i :: 0 <= i < |r| ==> r[i] == Entry(nodes[i].key, nodes[i].value)
    {
      EntriesOf(nodes)
    }

    constructor (capacity: int)
      ensures Valid() && Contents() == [] && this.capacity == capacity
    {
      this.capacity := capacity;
      cache := map[];
      head, tail := null, null;
      nodes := [];
    }

    /** Links a node that is not in the list in front of it. */
    method AddHead(n: ListNode)
      requires Linked() && n !in nodes
      modifies this`head, this`tail, this`nodes, nodes, n
      ensures Linked() && nodes == [n] + old(nodes)
      ensures n.value == old(n.value) && forall m :: m in old(nodes) ==> m.value == old(m.value)
    {
      assert nodes != [] ==> Placed(0);
      n.prev := null;
      n.next := head;
      if head != null {
        head.prev := n;
      }
      head := n;
      if tail == null {
        tail := n;
      }
      nodes := [n] + nodes;
      forall i | 0 <= i < |nodes| ensures Placed(i) {
        if i > 0 {
          assert old(Placed(i - 1));
        }
      }
    }

    /** Moves a node to the front of the cache. */
    method Touch(n: ListNode, ghost at: nat)
      requires Valid() && at < |nodes| && nodes[at] == n
      modifies this`head, this`tail, this`nodes, nodes`prev, nodes`next
      ensures Valid() && forall m :: m in nodes <==> m in old(nodes)
      ensures Contents() == ToFront(old(Contents()), at)
    {
      ghost var was := nodes;
      ghost var r := Contents();
      MapsMoved(was, cache, at);
      MoveToHead(n, at);
      ContentsMoved(was, r, at);
    }

    lemma ContentsMoved(was: seq<ListNode>, r: Recency, at: nat)
      requires at < |was| == |r| && nodes == ToFront(was, at)
      requires forall i :: 0 <= i < |was| ==> r[i] == Entry(was[i].key, was[i].value)
      ensures Contents() == ToFront(r, at)
    {
      var moved := ToFront(r, at);
      forall i | 0 <= i < |moved| ensures Contents()[i] == moved[i] {
        var from := if i == 0 then at else if i <= at then i - 1 else i;
        assert nodes[i] == was[from] && moved[i] == r[from];
      }
    }

    /** The map is as large as the list is long. */
    lemma SizesAgree()
      requires Valid()
      ensures |cache| == |nodes|
    {
      var keys := set i | 0 <= i < |nodes| :: nodes[i].key;
      assert cache.Keys == keys by {
        forall k | k in cache ensures k in keys {
          var i :| 0 <= i < |nodes| && nodes[i] == cache[k];
        }
      }
      assert forall i, j :: 0 <= i < j < |nodes| ==> nodes[i].key != nodes[j].key by {
        forall i, j | 0 <= i < j < |nodes| ensures nodes[i].key != nodes[j].key {
          assert cache[nodes[i].key] != cache[nodes[j].key];
        }
      }
      CountKeys(nodes);
    }

    static lemma {:induction false} CountKeys(ns: seq<ListNode>)
      requires forall i, j :: 0 <= i < j < |ns| ==> ns[i].key != ns[j].key
      ensures |set i | 0 <= i < |ns| :: ns[i].key| == |ns|
    {
      if ns != [] {
        var front, last := ns[..|ns| - 1], ns[|ns| - 1];
        CountKeys(front);
        var keys := set i | 0 <= i < |front| :: front[i].key;
        assert (set i | 0 <= i < |ns| :: ns[i].key) == keys + {last.key} by {
          forall i | 0 <= i < |ns| ensures ns[i].key in keys + {last.key} {
            if i < |front| {
              assert front[i] == ns[i];
            }
          }
          forall k | k in keys + {last.key} ensures k in set i | 0 <= i < |ns| :: ns[i].key {
            if k in keys {
              var i :| 0 <= i < |front| && front[i].key == k;
              assert ns[i].key == k;
            } else {
              assert ns[|ns| - 1].key == k;
            }
          }
        }
      }
    }

    static lemma SameElements(s: seq<ListNode>, at: nat)
      requires at < |s|
      ensures multiset(ToFront(s, at)) == multiset(s)
      ensures forall m :: m in ToFront(s, at) <==> m in s
    {
      assert s == s[..at] + [s[at]] + s[at + 1..];
    }

    static lemma MapsMoved(ns: seq<ListNode>, cache: map<int, ListNode>, at: nat)
      requires at < |ns| && Maps(ns, cache)
      ensures Maps(ToFront(ns, at), cache) && forall m :: m in ToFront(ns, at) <==> m in ns
    {
      SameElements(ns, at);
    }

    /** Moves a linked node to the front. */
    method MoveToHead(n: ListNode, ghost at: nat)
      requires Linked() && at < |nodes| && nodes[at] == n
      modifies this`head, this`tail, this`nodes, nodes`prev, nodes`next
      ensures Linked() && nodes == ToFront(old(nodes), at)
    {
      assert Placed(at) && Placed(0);
      if n == head {
        assert at == 0;
        assert nodes == [n] + nodes[..0] + nodes[1..];
        return;
      }
      assert at > 0 ==> Placed(at - 1);
      assert at + 1 < |nodes| ==> Placed(at + 1);
      if n.prev != null {
        n.prev.next := n.next;
      }
      if n.next != null {
        n.next.prev := n.prev;
      }
      if n == tail {
        tail := n.prev;
      }
      n.prev := null;
      n.next := head;
      if head != null {
        head.prev := n;
      }
      head := n;
      ghost var was := nodes;
      nodes := ToFront(nodes, at);
      forall i | 0 <= i < |nodes| ensures Placed(i) {
        if 0 < i <= at {
          assert nodes[i] == was[i - 1];
          assert old(Placed(i - 1));
        } else if i > at {
          assert nodes[i] == was[i];
          assert old(Placed(i));
        }
      }
    }

    /** Unlinks the least recently used node. */
    method PopTail() returns (n: ListNode?)
      requires Linked()
      modifies this`head, this`tail, this`nodes, nodes`next
      ensures old(nodes) == [] ==> n == null && nodes == []
      ensures old(nodes) != [] ==> n == old(nodes)[|old(nodes)| - 1] && nodes == old(nodes)[..|old(nodes)| - 1]
      ensures Linked()
    {
      if tail == null {
        return null;
      }
      var last := |nodes| - 1;
      assert Placed(last);
      assert last > 0 ==> Placed(last - 1);
      n := tail;
      if tail.prev != null {
        tail.prev.next := null;
      } else {
        head := null;
      }
      tail := tail.prev;
      nodes := nodes[..last];
      forall i | 0 <= i < |nodes| ensures Placed(i) {
        assert old(Placed(i));
      }
    }

    lemma KeyIsHeld(key: int) returns (at: nat)
      requires Valid()
      ensures key in cache <==> Holds(Contents(), key)
      ensures key in cache ==> at < |nodes| && nodes[at] == cache[key] && at == IndexOf(Contents(), key)
      ensures DistinctKeys(Contents())
    {
      at := 0;
      forall i, j | 0 <= i < j < |nodes| ensures Contents()[i].key != Contents()[j].key {
        assert cache[nodes[i].key] != cache[nodes[j].key];
      }
      if key in cache {
        at :| at < |nodes| && nodes[at] == cache[key];
        assert Contents()[at].key == key;
        var i := IndexOf(Contents(), key);
        assert Contents()[i].key == key;
      }
      if Holds(Contents(), key) {
        var i :| 0 <= i < |Contents()| && Contents()[i].key == key;
        assert nodes[i].key == key;
      }
    }

    /** The value, or -1; a found key becomes the most recently used. */
    method Get(key: int) returns (value: int)
      requires Valid()
      modifies this, nodes
      ensures Valid() && value == Answer(old(Contents()), key) && forall m :: m in nodes <==> m in old(nodes)
      ensures (forall e :: e in old(Contents()) ==> e.key != key) ==> value == -1
      ensures Contents() == AfterGet(old(Contents()), key)
    {
      ghost var at := KeyIsHeld(key);
      if key !in cache {
        return -1;
      }
      var n := cache[key];
      Touch(n, at);
      return n.value;
    }

    /** Inserts or updates; a new key that exceeds the capacity drops the least recently used one. */
    method Put(key: int, value: int)
      requires Valid()
      modifies this, nodes
      ensures Valid() && forall n :: n in nodes ==> n in old(nodes) || fresh(n)
      ensures Contents() == AfterPut(old(Contents()), capacity, key, value)
    {
      ghost var r := Contents();
      ghost var at := KeyIsHeld(key);
      PutCases(r, capacity, key, value);
      if key in cache {
        Update(cache[key], value, at);
        assert Contents() == ToFront(r[at := Entry(key, value)], at);
      } else {
        AddKey(key, value);
        assert Contents() == Trimmed([Entry(key, value)] + r, capacity);
      }
    }

    /** Inserts a new key in front and drops the last one if that is one too many. */
    method AddKey(key: int, value: int)
      requires Valid() && key !in cache
      modifies this, nodes
      ensures Valid() && forall n :: n in nodes ==> n in old(nodes) || fresh(n)
      ensures Contents() == Trimmed([Entry(key, value)] + old(Contents()), capacity)
    {
      var n := new ListNode(key, value);
      InsertNew(n);
      ghost var grown := nodes;
      TrimToCapacity();
      assert forall m :: m in nodes ==> m in grown;
    }

    method TrimToCapacity()
      requires Valid() && nodes != []
      modifies this, nodes
      ensures Valid() && forall m :: m in nodes ==> m in old(nodes)
      ensures Contents() == Trimmed(old(Contents()), capacity)
    {
      SizesAgree();
      if |cache| > capacity {
        Evict();
      }
    }

    /** Gives a held key a new value and makes it the most recently used. */
    method Update(n: ListNode, value: int, ghost at: nat)
      requires Valid() && at < |nodes| && nodes[at] == n
      modifies this`head, this`tail, this`nodes, nodes
      ensures Valid() && forall m :: m in nodes <==> m in old(nodes)
      ensures Contents() == ToFront(old(Contents())[at := Entry(n.key, value)], at)
    {
      ghost var r := Contents();
      n.value := value;
      assert Contents() == r[at := Entry(n.key, value)];
      forall i | 0 <= i < |nodes| ensures Placed(i) {
        assert old(Placed(i));
      }
      Touch(n, at);
    }

    /** Adds a fresh node to the map and in front of the list. */
    method InsertNew(n: ListNode)
      requires Valid() && n !in nodes && n.key !in cache
      modifies this, nodes, n
      ensures Valid() && nodes == [n] + old(nodes) && cache == old(cache)[n.key := n]
      ensures Contents() == [Entry(n.key, old(n.value))] + old(Contents())
    {
      ghost var r, was := Contents(), nodes;
      MapsFront(nodes, cache, n);
      cache := cache[n.key := n];
      ghost var value := n.value;
      AddHead(n);
      ContentsGrown(n, was, value, r);
    }

    lemma ContentsGrown(n: ListNode, was: seq<ListNode>, value: int, r: Recency)
      requires nodes == [n] + was && n.value == value && |r| == |was|
      requires forall i :: 0 <= i < |was| ==> r[i] == Entry(was[i].key, was[i].value)
      ensures Contents() == [Entry(n.key, value)] + r
    {
    }

    /** Drops the least recently used key from list and map. */
    method Evict()
      requires Valid() && nodes != []
      modifies this, nodes
      ensures Valid() && nodes == old(nodes)[..|old(nodes)| - 1]
      ensures Contents() == old(Contents())[..|old(Contents())| - 1]
    {
      ghost var r := Contents();
      MapsDrop(nodes, cache);
      var t := PopTail();
      cache := cache - {t.key};
      assert Contents() == r[..|r| - 1];
    }
  }
}
