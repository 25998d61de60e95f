/** Whole histories of cache operations: the cache is always the front of an unbounded list of all keys
    in order of their last use. */
module LruRuns {
  import opened LruCache

  datatype Op = Get(key: int) | Put(key: int, value: int)

  /** Every key ever put, by last use; nothing is ever dropped. */
  ghost function Used(all: Recency, key: int, value: int): Recency {
    if Holds(all, key) then ToFront(all[IndexOf(all, key) := Entry(key, value)], IndexOf(all, key))
    else [Entry(key, value)] + all
  }

  /** The cache and the unbounded list after a history. A get counts as a use only if it finds the key. */
  ghost function Replay(capacity: int, ops: seq<Op>): (Recency, Recency) {
    if ops == [] then ([], [])
    else
      var (cache, all) := Replay(capacity, ops[..|ops| - 1]);
      match ops[|ops| - 1]
      case Get(key) => (AfterGet(cache, key), if Holds(cache, key) then Used(all, key, Answer(cache, key)) else all)
      case Put(key, value) => (AfterPut(cache, capacity, key, value), Used(all, key, value))
  }

  function Room(capacity: int): nat { if capacity < 0 then 0 else capacity }

  ghost function Front(all: Recency, capacity: int): Recency {
    if |all| <= Room(capacity) then all else all[..Room(capacity)]
  }

  lemma {:induction false} OnlyIndex(r: Recency, key: int, i: nat)
    requires DistinctKeys(r) && i < |r| && r[i].key == key
    ensures Holds(r, key) && IndexOf(r, key) == i
  {
    var j := IndexOf(r, key);
  }

  lemma ToFrontDistinct(r: Recency, i: nat)
    requires DistinctKeys(r) && i < |r|
    ensures DistinctKeys(ToFront(r, i))
  {
    var moved := ToFront(r, i);
    assert forall k :: 0 <= k < |moved| ==> moved[k] == r[if k == 0 then i else if k <= i then k - 1 else k];
  }

  lemma UsedDistinct(all: Recency, key: int, value: int)
    requires DistinctKeys(all)
    ensures DistinctKeys(Used(all, key, value))
    ensures Used(all, key, value) != [] && Used(all, key, value)[0] == Entry(key, value)
  {
    if Holds(all, key) {
      ToFrontDistinct(all[IndexOf(all, key) := Entry(key, value)], IndexOf(all, key));
    }
  }

  /** A use of a key the cache holds. */
  lemma UseHeld(all: Recency, capacity: int, key: int, value: int)
    requires DistinctKeys(all) && Holds(Front(all, capacity), key)
    ensures
      var cache := Front(all, capacity);
      ToFront(cache[IndexOf(cache, key) := Entry(key, value)], IndexOf(cache, key))
        == Front(Used(all, key, value), capacity)
  {
    var cache := Front(all, capacity);
    var i := IndexOf(cache, key);
    OnlyIndex(all, key, i);
    MovedFront(all, |cache|, i, Entry(key, value));
  }

  /** Moving an entry of the front to the front stays within it. */
  lemma MovedFront(all: Recency, k: nat, i: nat, e: Entry)
    requires i < k <= |all|
    ensures ToFront(all[..k][i := e], i) == ToFront(all[i := e], i)[..k]
  {
    assert all[..k][i := e] == all[i := e][..k];
  }

  /** A put of a key it does not hold: the key that falls off the end of the front is the one dropped. */
  lemma PutAbsent(all: Recency, capacity: int, key: int, value: int)
    requires DistinctKeys(all) && !Holds(Front(all, capacity), key)
    ensures AfterPut(Front(all, capacity), capacity, key, value) == Front(Used(all, key, value), capacity)
  {
    var cache := Front(all, capacity);
    PutCases(cache, capacity, key, value);
    if Holds(all, key) {
      var i := IndexOf(all, key);
      assert forall k :: 0 <= k < |cache| ==> cache[k].key == all[k].key && cache[k].key != key;
      assert i >= |cache|;
    }
  }

  /** After every history the cache is exactly the front of the list of all keys by last use: as many
      as the capacity allows, and what has been dropped is what was used longest ago. */
  lemma {:induction false} CacheIsFront(capacity: int, ops: seq<Op>)
    ensures
      var (cache, all) := Replay(capacity, ops);
      DistinctKeys(all) && cache == Front(all, capacity) && |cache| <= Room(capacity)
  {
    if ops != [] {
      CacheIsFront(capacity, ops[..|ops| - 1]);
      var (cache, all) := Replay(capacity, ops[..|ops| - 1]);
      match ops[|ops| - 1]
      case Get(key) =>
        if Holds(cache, key) {
          var i := IndexOf(cache, key);
          UsedDistinct(all, key, Answer(cache, key));
          UseHeld(all, capacity, key, Answer(cache, key));
          assert cache[i := Entry(key, Answer(cache, key))] == cache;
        }
      case Put(key, value) =>
        UsedDistinct(all, key, value);
        if Holds(cache, key) {
          UseHeld(all, capacity, key, value);
        } else {
          PutAbsent(all, capacity, key, value);
        }
    }
  }

  /** What was put last is found again as long as there is room for one entry at all. */
  lemma PutThenGet(capacity: int, ops: seq<Op>, key: int, value: int)
    ensures
      var cache := Replay(capacity, ops + [Put(key, value)]).0;
      capacity >= 1 <==> Holds(cache, key) && Answer(cache, key) == value
  {
    var all := ops + [Put(key, value)];
    assert all[..|all| - 1] == ops;
    CacheIsFront(capacity, ops);
    CacheIsFront(capacity, all);
    var (cache, used) := Replay(capacity, all);
    UsedDistinct(Replay(capacity, ops).1, key, value);
    if capacity >= 1 {
      OnlyIndex(cache, key, 0);
    }
  }
}
