/** The cache in the bare terms of calls and answers: which keys are found, and with which values. */
module LruTerms {
  import opened LruCache
  import opened LruRuns

  /** Which calls use their key: every put, and the gets that find it. */
  ghost function UsesOf(capacity: int, ops: seq<Op>): (r: seq<bool>)
    ensures |r| == |ops|
  {
    if ops == [] then []
    else
      var n := |ops| - 1;
      UsesOf(capacity, ops[..n]) + [ops[n].Put? || Holds(Replay(capacity, ops[..n]).0, ops[n].key)]
  }

  /** The keys used from call `from` on. */
  ghost function UsedFrom(ops: seq<Op>, uses: seq<bool>, from: nat): set<int>
    requires |uses| == |ops|
  {
    set i | from <= i < |ops| && uses[i] :: ops[i].key
  }

  /** Call `i` uses the key, and fewer than `capacity` other keys are used after it. */
  ghost predicate KeptSince(capacity: int, ops: seq<Op>, uses: seq<bool>, key: int, i: nat)
    requires |uses| == |ops|
  {
    i < |ops| && ops[i].key == key && uses[i] && |UsedFrom(ops, uses, i + 1) - {key}| < capacity
  }

  /** The key was used, and since then fewer than `capacity` other keys. */
  ghost predicate Kept(capacity: int, ops: seq<Op>, uses: seq<bool>, key: int)
    requires |uses| == |ops|
  {
    exists i: nat :: KeptSince(capacity, ops, uses, key, i)
  }

  /** What `key` was last put with. */
  ghost predicate LastPut(ops: seq<Op>, key: int, value: int) {
    exists p :: LastPutAt(ops, key, value, p)
  }

  ghost predicate LastPutAt(ops: seq<Op>, key: int, value: int, p: int) {
    && 0 <= p < |ops| && ops[p] == Put(key, value)
    && forall q :: p < q < |ops| && ops[q].Put? ==> ops[q].key != key
  }

  ghost function KeysOf(r: Recency): set<int> {
    set i | 0 <= i < |r| :: r[i].key
  }

  lemma {:induction false} KeysCount(r: Recency)
    requires DistinctKeys(r)
    ensures |KeysOf(r)| == |r|
  {
    if r != [] {
      var n := |r| - 1;
      KeysCount(r[..n]);
      KeysAppend(r[..n], r[n]);
      assert r == r[..n] + [r[n]];
      assert r[n].key !in KeysOf(r[..n]);
    }
  }

  lemma KeysAppend(r: Recency, e: Entry)
    ensures KeysOf(r + [e]) == KeysOf(r) + {e.key}
  {
    forall k | k in KeysOf(r) + {e.key} ensures k in KeysOf(r + [e]) {
      if k in KeysOf(r) {
        var i :| 0 <= i < |r| && r[i].key == k;
        assert (r + [e])[i].key == k;
      } else {
        assert (r + [e])[|r|].key == k;
      }
    }
  }

  lemma UsedAppend(ops: seq<Op>, uses: seq<bool>, op: Op, use: bool, from: nat)
    requires |uses| == |ops| && from <= |ops|
    ensures UsedFrom(ops + [op], uses + [use], from) == UsedFrom(ops, uses, from) + if use then {op.key} else {}
  {
    var more, flags := ops + [op], uses + [use];
    forall k | k in UsedFrom(ops, uses, from) + (if use then {op.key} else {}) ensures k in UsedFrom(more, flags, from) {
      if k in UsedFrom(ops, uses, from) {
        var i :| from <= i < |ops| && uses[i] && ops[i].key == k;
        assert more[i].key == k && flags[i];
      } else {
        assert more[|ops|].key == k && flags[|ops|];
      }
    }
  }

  /** The entry at `at` in the list of all keys: call `i` was the last use of its key, and the keys in front
      of it are those used since. */
  ghost predicate PlacedBy(ops: seq<Op>, uses: seq<bool>, all: Recency, at: nat, i: nat)
    requires |uses| == |ops|
  {
    && at < |all| && i < |ops| && ops[i].key == all[at].key && uses[i]
    && UsedFrom(ops, uses, i + 1) == KeysOf(all[..at])
  }

  ghost predicate Placed(ops: seq<Op>, uses: seq<bool>, all: Recency, at: nat)
    requires |uses| == |ops|
  {
    exists i: nat :: PlacedBy(ops, uses, all, at, i)
  }

  /** The list of all keys is a record of the calls. */
  ghost predicate Records(ops: seq<Op>, uses: seq<bool>, all: Recency)
    requires |uses| == |ops|
  {
    && DistinctKeys(all) && UsedFrom(ops, uses, 0) == KeysOf(all)
    && (forall at: nat :: at < |all| ==> Placed(ops, uses, all, at))
    && forall e :: e in all ==> LastPut(ops, e.key, e.value)
  }

  /** Where the entries of the list come from when a key is used. */
  ghost function FromOf(all: Recency, key: int, at: nat): int {
    if Holds(all, key) && at > IndexOf(all, key) then at else at - 1
  }

  lemma PrefixOfMoved(e: Entry, a: Recency, b: Recency, at: nat)
    requires 0 < at <= |a|
    ensures ([e] + a + b)[..at] == [e] + a[..at - 1] && ([e] + a + b)[at] == a[at - 1]
  {
  }

  lemma UsedNew(all: Recency, key: int, value: int, at: nat)
    requires !Holds(all, key) && 0 < at <= |all|
    ensures
      var used := Used(all, key, value);
      used[at] == all[at - 1] && used[at].key != key && KeysOf(used[..at]) == KeysOf(all[..at - 1]) + {key}
  {
    assert Used(all, key, value)[..at] == [Entry(key, value)] + all[..at - 1];
    KeysBehind(all[..at - 1], Entry(key, value));
  }

  lemma UsedBefore(all: Recency, key: int, value: int, at: nat)
    requires DistinctKeys(all) && Holds(all, key) && 0 < at <= IndexOf(all, key)
    ensures
      var used := Used(all, key, value);
      used[at] == all[at - 1] && used[at].key != key && KeysOf(used[..at]) == KeysOf(all[..at - 1]) + {key}
  {
    var was := IndexOf(all, key);
    var e := Entry(key, value);
    assert Used(all, key, value) == [e] + all[..was] + all[was + 1..];
    PrefixOfMoved(e, all[..was], all[was + 1..], at);
    assert all[..was][..at - 1] == all[..at - 1];
    KeysBehind(all[..at - 1], Entry(key, value));
  }

  lemma UsedAfter(all: Recency, key: int, value: int, at: nat)
    requires DistinctKeys(all) && Holds(all, key) && IndexOf(all, key) < at < |all|
    ensures
      var used := Used(all, key, value);
      |used| == |all| && used[at] == all[at] && used[at].key != key && KeysOf(used[..at]) == KeysOf(all[..at]) + {key}
  {
    var was := IndexOf(all, key);
    assert Used(all, key, value) == [Entry(key, value)] + all[..was] + all[was + 1..];
    assert Used(all, key, value)[..at] == [Entry(key, value)] + all[..at][..was] + all[..at][was + 1..];
    KeysAround(all[..at], was, value);
  }

  lemma UsedEntries(all: Recency, key: int, value: int, at: nat)
    requires DistinctKeys(all) && 0 < at < |Used(all, key, value)|
    ensures
      var (used, from) := (Used(all, key, value), FromOf(all, key, at));
      && 0 <= from < |all| && used[at] == all[from] && used[at].key != key
      && KeysOf(used[..at]) == KeysOf(all[..from]) + {key}
  {
    if !Holds(all, key) {
      UsedNew(all, key, value, at);
    } else if at <= IndexOf(all, key) {
      UsedBefore(all, key, value, at);
    } else {
      UsedAfter(all, key, value, at);
    }
  }

  lemma KeysBehind(r: Recency, e: Entry)
    ensures KeysOf([e] + r) == KeysOf(r) + {e.key}
  {
    var s := [e] + r;
    forall k | k in KeysOf(r) + {e.key} ensures k in KeysOf(s) {
      if k in KeysOf(r) {
        var i :| 0 <= i < |r| && r[i].key == k;
        assert s[i + 1].key == k;
      } else {
        assert s[0].key == k;
      }
    }
    assert forall i :: 0 < i < |s| ==> s[i] == r[i - 1];
  }

  lemma KeysAround(r: Recency, was: nat, value: int)
    requires was < |r|
    ensures KeysOf([Entry(r[was].key, value)] + r[..was] + r[was + 1..]) == KeysOf(r) + {r[was].key}
  {
    var s := [Entry(r[was].key, value)] + r[..was] + r[was + 1..];
    forall k | k in KeysOf(r) ensures k in KeysOf(s) {
      var i :| 0 <= i < |r| && r[i].key == k;
      var j := if i == was then 0 else if i < was then i + 1 else i;
      assert s[j].key == k;
    }
    forall k | k in KeysOf(s) ensures k in KeysOf(r) {
      var j :| 0 <= j < |s| && s[j].key == k;
      var i := if j == 0 then was else if j <= was then j - 1 else j;
      assert r[i].key == k;
    }
  }

  lemma UseIsPlaced(ops: seq<Op>, uses: seq<bool>, all: Recency, op: Op, value: int, at: nat)
    requires |uses| == |ops| && Records(ops, uses, all) && at < |Used(all, op.key, value)|
    ensures Placed(ops + [op], uses + [true], Used(all, op.key, value), at)
  {
    var used, more, flags := Used(all, op.key, value), ops + [op], uses + [true];
    if at == 0 {
      assert used[0] == Entry(op.key, value) && used[..0] == [];
      assert PlacedBy(more, flags, used, 0, |ops|);
    } else {
      UsedEntries(all, op.key, value, at);
      var from := FromOf(all, op.key, at);
      assert Placed(ops, uses, all, from);
      var i: nat :| PlacedBy(ops, uses, all, from, i);
      UsedAppend(ops, uses, op, true, i + 1);
      assert PlacedBy(more, flags, used, at, i);
    }
  }

  /** A call that is no use leaves the record as it was. */
  lemma MissRecords(ops: seq<Op>, uses: seq<bool>, all: Recency, op: Op)
    requires |uses| == |ops| && Records(ops, uses, all) && op.Get?
    ensures Records(ops + [op], uses + [false], all)
  {
    UsedAppend(ops, uses, op, false, 0);
    forall at: nat | at < |all| ensures Placed(ops + [op], uses + [false], all, at) {
      assert Placed(ops, uses, all, at);
      var i: nat :| PlacedBy(ops, uses, all, at, i);
      UsedAppend(ops, uses, op, false, i + 1);
      assert PlacedBy(ops + [op], uses + [false], all, at, i);
    }
    forall e | e in all ensures LastPut(ops + [op], e.key, e.value) {
      LastPutLater(ops, op, e);
    }
  }

  lemma LastPutLater(ops: seq<Op>, op: Op, e: Entry)
    requires LastPut(ops, e.key, e.value) && (op.Put? ==> op.key != e.key)
    ensures LastPut(ops + [op], e.key, e.value)
  {
    var p :| LastPutAt(ops, e.key, e.value, p);
    assert LastPutAt(ops + [op], e.key, e.value, p);
  }

  lemma UseRecords(ops: seq<Op>, uses: seq<bool>, all: Recency, op: Op, value: int)
    requires |uses| == |ops| && Records(ops, uses, all)
    requires match op case Put(_, v) => v == value case Get(key) => Entry(key, value) in all
    ensures Records(ops + [op], uses + [true], Used(all, op.key, value))
  {
    var used := Used(all, op.key, value);
    UsedDistinct(all, op.key, value);
    UsedAppend(ops, uses, op, true, 0);
    UsedKeys(all, op.key, value);
    forall at: nat | at < |used| ensures Placed(ops + [op], uses + [true], used, at) {
      UseIsPlaced(ops, uses, all, op, value, at);
    }
    forall e | e in used ensures LastPut(ops + [op], e.key, e.value) {
      var at :| 0 <= at < |used| && used[at] == e;
      if at > 0 {
        UsedEntries(all, op.key, value, at);
        LastPutLater(ops, op, e);
      } else if op.Put? {
        assert LastPutAt(ops + [op], op.key, value, |ops|);
      } else {
        LastPutLater(ops, op, e);
      }
    }
  }

  lemma UsedKeys(all: Recency, key: int, value: int)
    ensures KeysOf(Used(all, key, value)) == KeysOf(all) + {key}
  {
    if Holds(all, key) {
      var was := IndexOf(all, key);
      assert Used(all, key, value) == [Entry(key, value)] + all[..was] + all[was + 1..];
      KeysAround(all, was, value);
    } else {
      KeysBehind(all, Entry(key, value));
    }
  }

  lemma {:induction false} AllRecords(capacity: int, ops: seq<Op>)
    ensures Records(ops, UsesOf(capacity, ops), Replay(capacity, ops).1)
  {
    if ops != [] {
      var n := |ops| - 1;
      var front, op := ops[..n], ops[n];
      var (cache, all) := Replay(capacity, front);
      AllRecords(capacity, front);
      CacheIsFront(capacity, front);
      assert ops == front + [op];
      if op.Put? {
        UseRecords(front, UsesOf(capacity, front), all, op, op.value);
      } else if Holds(cache, op.key) {
        assert cache[IndexOf(cache, op.key)] == all[IndexOf(cache, op.key)];
        UseRecords(front, UsesOf(capacity, front), all, op, Answer(cache, op.key));
      } else {
        MissRecords(front, UsesOf(capacity, front), all, op);
      }
    }
  }

  lemma InFront(all: Recency, capacity: int, key: int, at: nat)
    requires at < |all| && all[at].key == key && at < capacity
    ensures Holds(Front(all, capacity), key)
  {
    assert Front(all, capacity)[at].key == key;
  }

  lemma FoundIsKept(capacity: int, ops: seq<Op>, key: int) returns (i: nat)
    requires Holds(Replay(capacity, ops).0, key)
    ensures KeptSince(capacity, ops, UsesOf(capacity, ops), key, i)
  {
    var (cache, all) := Replay(capacity, ops);
    CacheIsFront(capacity, ops);
    AllRecords(capacity, ops);
    var at := IndexOf(cache, key);
    assert all[at].key == key && at < capacity;
    i := FrontIsKept(capacity, ops, UsesOf(capacity, ops), all, at);
  }

  lemma KeptIsFound(capacity: int, ops: seq<Op>, key: int, i: nat)
    requires KeptSince(capacity, ops, UsesOf(capacity, ops), key, i)
    ensures Holds(Replay(capacity, ops).0, key)
  {
    var all, uses := Replay(capacity, ops).1, UsesOf(capacity, ops);
    CacheIsFront(capacity, ops);
    AllRecords(capacity, ops);
    var at := KeptIsListed(capacity, ops, uses, all, key, i);
    KeptIsFront(capacity, ops, uses, all, at, i);
    InFront(all, capacity, key, at);
  }

  /** A key is found exactly if some call used it after which fewer than `capacity` other keys were used. */
  lemma FoundExactly(capacity: int, ops: seq<Op>, key: int)
    ensures Holds(Replay(capacity, ops).0, key) <==> Kept(capacity, ops, UsesOf(capacity, ops), key)
  {
    var cache, uses := Replay(capacity, ops).0, UsesOf(capacity, ops);
    if Holds(cache, key) {
      var i := FoundIsKept(capacity, ops, key);
      assert KeptSince(capacity, ops, uses, key, i);
    }
    if Kept(capacity, ops, uses, key) {
      var i: nat :| KeptSince(capacity, ops, uses, key, i);
      KeptIsFound(capacity, ops, key, i);
    }
  }

  lemma FrontIsKept(capacity: int, ops: seq<Op>, uses: seq<bool>, all: Recency, at: nat) returns (i: nat)
    requires |uses| == |ops| && Records(ops, uses, all) && at < |all| && at < capacity
    ensures KeptSince(capacity, ops, uses, all[at].key, i)
  {
    assert Placed(ops, uses, all, at);
    i :| PlacedBy(ops, uses, all, at, i);
    KeysInFront(all, at);
  }

  lemma KeptIsListed(capacity: int, ops: seq<Op>, uses: seq<bool>, all: Recency, key: int, i: nat) returns (at: nat)
    requires |uses| == |ops| && Records(ops, uses, all) && KeptSince(capacity, ops, uses, key, i)
    ensures at < |all| && all[at].key == key
  {
    assert key in UsedFrom(ops, uses, 0);
    at :| at < |all| && all[at].key == key;
  }

  lemma KeysInFront(all: Recency, at: nat)
    requires DistinctKeys(all) && at < |all|
    ensures all[at].key !in KeysOf(all[..at]) && |KeysOf(all[..at])| == at
  {
    KeysCount(all[..at]);
  }

  lemma LastUse(ops: seq<Op>, uses: seq<bool>, all: Recency, at: nat, last: nat, i: nat)
    requires |uses| == |ops| && DistinctKeys(all) && PlacedBy(ops, uses, all, at, last)
    requires i < |ops| && ops[i].key == all[at].key && uses[i]
    ensures i <= last
  {
    KeysInFront(all, at);
    assert all[at].key !in UsedFrom(ops, uses, last + 1);
  }

  lemma KeptIsFront(capacity: int, ops: seq<Op>, uses: seq<bool>, all: Recency, at: nat, i: nat)
    requires |uses| == |ops| && Records(ops, uses, all) && at < |all|
    requires KeptSince(capacity, ops, uses, all[at].key, i)
    ensures at < capacity
  {
    assert Placed(ops, uses, all, at);
    var last: nat :| PlacedBy(ops, uses, all, at, last);
    KeysInFront(all, at);
    LastUse(ops, uses, all, at, last, i);
    var inFront, since := KeysOf(all[..at]), UsedFrom(ops, uses, i + 1) - {all[at].key};
    assert inFront <= since;
    SmallerSet(inFront, since);
  }

  lemma SmallerSet(a: set<int>, b: set<int>)
    requires a <= b
    ensures |a| <= |b|
  {
    assert |b| == |a| + |b - a|;
  }

  /** The answer of a get: what the key was last put with if it is found, and -1 if not. */
  lemma AnswerExactly(capacity: int, ops: seq<Op>, key: int)
    ensures
      var answer := Answer(Replay(capacity, ops).0, key);
      if Kept(capacity, ops, UsesOf(capacity, ops), key) then LastPut(ops, key, answer)
      else answer == -1
  {
    var (cache, all) := Replay(capacity, ops);
    FoundExactly(capacity, ops, key);
    CacheIsFront(capacity, ops);
    AllRecords(capacity, ops);
    if Holds(cache, key) {
      assert all[IndexOf(cache, key)] in all;
    }
  }

  /** In particular a key never put is never found. */
  lemma NeverPut(capacity: int, ops: seq<Op>, key: int)
    requires forall i :: 0 <= i < |ops| && ops[i].Put? ==> ops[i].key != key
    ensures Answer(Replay(capacity, ops).0, key) == -1
  {
    AnswerExactly(capacity, ops, key);
  }

  /** The same for every call of a history: a get uses its key exactly if the calls before it left it kept. */
  lemma UsesAreExact(capacity: int, ops: seq<Op>, k: nat)
    requires k < |ops|
    ensures
      var uses := UsesOf(capacity, ops);
      uses[k] <==> ops[k].Put? || Kept(capacity, ops[..k], uses[..k], ops[k].key)
  {
    UsesFront(capacity, ops, k);
    UsesFront(capacity, ops, k + 1);
    FoundExactly(capacity, ops[..k], ops[k].key);
    assert ops[..k + 1][..k] == ops[..k] && ops[..k + 1][k] == ops[k];
  }

  lemma {:induction false} UsesFront(capacity: int, ops: seq<Op>, k: nat)
    requires k <= |ops|
    ensures UsesOf(capacity, ops)[..k] == UsesOf(capacity, ops[..k])
    decreases ops
  {
    if k == |ops| {
      assert ops[..k] == ops;
    } else {
      var n := |ops| - 1;
      UsesFront(capacity, ops[..n], k);
      assert ops[..n][..k] == ops[..k];
    }
  }

  /** The answer call `k` gives, a put giving none. */
  ghost predicate AnswersRightly(capacity: int, ops: seq<Op>, uses: seq<bool>, k: nat, answer: int)
    requires |uses| == |ops| && k < |ops|
  {
    ops[k].Get? ==> if uses[k] then LastPut(ops[..k], ops[k].key, answer) else answer == -1
  }

  ghost predicate UsesRightly(capacity: int, ops: seq<Op>, uses: seq<bool>, k: nat)
    requires |uses| == |ops| && k < |ops|
  {
    uses[k] <==> ops[k].Put? || Kept(capacity, ops[..k], uses[..k], ops[k].key)
  }

  lemma AnswerIsRight(capacity: int, ops: seq<Op>, n: nat)
    requires n < |ops|
    ensures AnswersRightly(capacity, ops, UsesOf(capacity, ops), n, Answer(Replay(capacity, ops[..n]).0, ops[n].key))
  {
    AnswerExactly(capacity, ops[..n], ops[n].key);
    UsesAreExact(capacity, ops, n);
    UsesFront(capacity, ops, n);
  }

  lemma ReplayNext(capacity: int, ops: seq<Op>, n: nat)
    requires n < |ops|
    ensures Replay(capacity, ops[..n + 1]).0 ==
      match ops[n]
      case Get(key) => AfterGet(Replay(capacity, ops[..n]).0, key)
      case Put(key, value) => AfterPut(Replay(capacity, ops[..n]).0, capacity, key, value)
  {
    assert ops[..n + 1][..n] == ops[..n];
  }

  /** The cache has served the first `n` calls. */
  ghost predicate Served(c: LRUCache, ops: seq<Op>, n: nat)
    reads c, c.nodes
  {
    c.Valid() && n <= |ops| && c.Contents() == Replay(c.capacity, ops[..n]).0
  }

  ghost predicate AllRight(capacity: int, ops: seq<Op>, answers: seq<int>) {
    |answers| <= |ops| && forall k: nat :: k < |answers| ==> AnswersRightly(capacity, ops, UsesOf(capacity, ops), k, answers[k])
  }

  lemma OneMoreRight(capacity: int, ops: seq<Op>, answers: seq<int>, answer: int)
    requires AllRight(capacity, ops, answers) && |answers| < |ops|
    requires AnswersRightly(capacity, ops, UsesOf(capacity, ops), |answers|, answer)
    ensures AllRight(capacity, ops, answers + [answer])
  {
  }

  method ServeOp(c: LRUCache, ghost ops: seq<Op>, n: nat, op: Op) returns (answer: int)
    requires Served(c, ops, n) && n < |ops| && ops[n] == op
    modifies c, c.nodes
    ensures Served(c, ops, n + 1) && forall m :: m in c.nodes ==> m in old(c.nodes) || fresh(m)
    ensures AnswersRightly(c.capacity, ops, UsesOf(c.capacity, ops), n, answer)
  {
    AnswerIsRight(c.capacity, ops, n);
    ReplayNext(c.capacity, ops, n);
    answer := 0;
    match op {
      case Get(key) => answer := c.Get(key);
      case Put(key, value) => c.Put(key, value);
    }
  }

  /** A cache in use: its gets find what they should and answer what was last put, in terms of the earlier
      calls and answers only. */
  method ServeOps(capacity: int, ops: seq<Op>) returns (answers: seq<int>, ghost uses: seq<bool>)
    ensures |answers| == |uses| == |ops|
    ensures forall k: nat :: k < |ops| ==> UsesRightly(capacity, ops, uses, k)
    ensures forall k: nat :: k < |ops| ==> AnswersRightly(capacity, ops, uses, k, answers[k])
  {
    answers := ServeAll(capacity, ops);
    uses := UsesOf(capacity, ops);
    forall k: nat | k < |ops| ensures UsesRightly(capacity, ops, uses, k) {
      UsesAreExact(capacity, ops, k);
    }
  }

  method ServeAll(capacity: int, ops: seq<Op>) returns (answers: seq<int>)
    ensures |answers| == |ops| && AllRight(capacity, ops, answers)
  {
    var c := new LRUCache(capacity);
    answers := [];
    for n := 0 to |ops|
      invariant fresh(c) && fresh(c.nodes) && c.capacity == capacity
      invariant Served(c, ops, n) && |answers| == n && AllRight(capacity, ops, answers)
    {
      var answer := ServeOp(c, ops, n, ops[n]);
      OneMoreRight(capacity, ops, answers, answer);
      answers := answers + [answer];
    }
  }
}
