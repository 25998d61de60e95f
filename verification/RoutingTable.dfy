/** The binary routing trie of practice/routing_table.go: longest-prefix match over 32-bit addresses.
    An address is a number below 2^32; parsing text and masking have already happened. */
module RoutingTable {
  import opened MapValues

  type Bit = b: nat | b < 2

  function Pow2(k: nat): (r: nat)
    ensures r > 0
  {
    if k == 0 then 1 else 2 * Pow2(k - 1)
  }

  function Quotient(a: nat, d: nat): (q: nat)
    requires d > 0
    ensures a < d ==> q == 0
  {
    a / d
  }

  /** The bit at `pos`, counting from the least significant. */
  function GetBit(addr: nat, pos: nat): Bit { Quotient(addr, Pow2(pos)) % 2 }

  /** The first `n` bits, the most significant first. */
  function Bits(addr: nat, n: nat): (r: seq<Bit>)
    requires n <= 32
    ensures |r| == n && forall i :: 0 <= i < n ==> r[i] == GetBit(addr, 31 - i)
  {
    seq(n, i requires 0 <= i < n => GetBit(addr, 31 - i))
  }

  lemma BitsGrow(addr: nat, n: nat)
    requires n < 32
    ensures Bits(addr, n + 1) == Bits(addr, n) + [GetBit(addr, 31 - n)]
  {
  }

  /** The part of an address above its low `32 - n` bits: what a prefix of length `n` fixes. */
  function High(addr: nat, n: nat): nat
    requires n <= 32
  {
    Quotient(addr, Pow2(32 - n))
  }

  lemma HighGrows(addr: nat, n: nat)
    requires n < 32
    ensures High(addr, n + 1) == 2 * High(addr, n) + GetBit(addr, 31 - n)
  {
    var d := Pow2(31 - n);
    assert Pow2(32 - n) == 2 * d;
    HalveQuotient(addr, d);
  }

  lemma HalveQuotient(a: nat, d: nat)
    requires d > 0
    ensures Quotient(a, d) == 2 * Quotient(a, 2 * d) + Quotient(a, d) % 2
  {
    var q := a / d;
    var h, b := q / 2, q % 2;
    assert a == d * q + a % d;
    assert a == (2 * d) * h + (d * b + a % d);
    QuotientIs(a, 2 * d, h, d * b + a % d);
  }

  lemma QuotientIs(a: nat, d: nat, q: nat, r: nat)
    requires d > 0 && a == d * q + r && r < d
    ensures a / d == q
  {
    var p := a / d;
    assert d * (p - q) == r - a % d;
    if p > q {
      MulAtLeast(d, p - q);
    } else if p < q {
      MulAtLeast(d, q - p);
    }
  }

  lemma MulAtLeast(d: nat, k: nat)
    requires k >= 1
    ensures d * k >= d
  {
  }

  predicate IsAddress(a: nat) { a < 0x1_0000_0000 }

  lemma NothingAbove(a: nat)
    requires IsAddress(a)
    ensures High(a, 0) == 0
  {
    assert Pow2(8) == 256;
    assert Pow2(16) == 0x1_0000;
    assert Pow2(24) == 0x100_0000;
    assert Pow2(32) == 0x1_0000_0000;
  }

  lemma SameAppended(s: seq<Bit>, x: Bit, t: seq<Bit>, y: Bit)
    requires |s| == |t|
    ensures s + [x] == t + [y] <==> s == t && x == y
  {
    if s + [x] == t + [y] {
      assert (s + [x])[|s|] == (t + [y])[|s|];
      assert (s + [x])[..|s|] == s && (t + [y])[..|t|] == t;
    }
  }

  lemma SameDoubled(h: nat, x: Bit, k: nat, y: Bit)
    ensures 2 * h + x == 2 * k + y <==> h == k && x == y
  {
  }

  /** Two addresses share their first `n` bits exactly when they share the prefix of length `n`. */
  lemma {:induction false} SameBitsSamePrefix(a: nat, b: nat, n: nat)
    requires IsAddress(a) && IsAddress(b) && n <= 32
    ensures Bits(a, n) == Bits(b, n) <==> High(a, n) == High(b, n)
  {
    if n == 0 {
      NothingAbove(a);
      NothingAbove(b);
    } else {
      var m, x, y := n - 1, GetBit(a, 32 - n), GetBit(b, 32 - n);
      SameBitsSamePrefix(a, b, m);
      HighGrows(a, m);
      HighGrows(b, m);
      BitsGrow(a, m);
      BitsGrow(b, m);
      SameAppended(Bits(a, m), x, Bits(b, m), y);
      SameDoubled(High(a, m), x, High(b, m), y);
    }
  }

  lemma BlockOfQuotient(addr: nat, d: nat, q: nat)
    requires d > 0
    ensures Quotient(addr, d) == q <==> d * q <= addr < d * q + d
  {
    if d * q <= addr < d * q + d {
      QuotientIs(addr, d, q, addr - d * q);
    }
    assert addr == d * (addr / d) + addr % d;
  }

  /** A network address and its length stand for the addresses from it on, as many as its free bits allow. */
  lemma PrefixIsBlock(net: nat, n: nat, addr: nat)
    requires n <= 32 && net % Pow2(32 - n) == 0
    ensures High(net, n) == High(addr, n) <==> net <= addr < net + Pow2(32 - n)
  {
    var d := Pow2(32 - n);
    BlockOfQuotient(addr, d, Quotient(net, d));
    assert net == d * (net / d) + net % d;
  }

  lemma BlockSizes()
    ensures Pow2(32 - 32) == 1 && Pow2(32 - 24) == 256 && Pow2(32 - 16) == 65536 && Pow2(32 - 8) == 16777216
  {
    assert Pow2(8) == 256;
    assert Pow2(16) == 65536;
  }

  type Routes = map<seq<Bit>, string>

  /** The gateway stored for a prefix; an empty gateway counts as no route. */
  function GatewayOf(routes: Routes, prefix: seq<Bit>): string {
    if prefix in routes then routes[prefix] else ""
  }

  /** `best` is the gateway of the longest stored prefix of `bits` of length below `n`. */
  ghost predicate LongestMatch(routes: Routes, bits: seq<Bit>, n: nat, best: string)
    requires n <= |bits| + 1
  {
    exists len :: -1 <= len < n && MatchAt(routes, bits, n, best, len)
  }

  ghost predicate MatchAt(routes: Routes, bits: seq<Bit>, n: nat, best: string, len: int)
    requires len < n <= |bits| + 1
  {
    && (len < 0 <==> best == "")
    && (len >= 0 ==> GatewayOf(routes, bits[..len]) == best)
    && forall k :: 0 <= k < n && len < k ==> GatewayOf(routes, bits[..k]) == ""
  }

  lemma MatchGrows(routes: Routes, bits: seq<Bit>, n: nat, best: string)
    requires n <= |bits| && LongestMatch(routes, bits, n, best)
    ensures
      var g := GatewayOf(routes, bits[..n]);
      LongestMatch(routes, bits, n + 1, if g != "" then g else best)
  {
    var len :| -1 <= len < n && MatchAt(routes, bits, n, best, len);
    var g := GatewayOf(routes, bits[..n]);
    assert MatchAt(routes, bits, n + 1, if g != "" then g else best, if g != "" then n else len);
  }

  lemma NoMatchBeyond(routes: Routes, bits: seq<Bit>, n: nat, best: string)
    requires n <= |bits| && LongestMatch(routes, bits, n, best)
    requires forall k :: n <= k <= |bits| ==> bits[..k] !in routes
    ensures LongestMatch(routes, bits, |bits| + 1, best)
  {
    var len :| -1 <= len < n && MatchAt(routes, bits, n, best, len);
    assert MatchAt(routes, bits, |bits| + 1, best, len);
  }

  class TrieNode {
    var child: seq<TrieNode?>
    var gateway: string
    /** The bits that lead to the node. */
    ghost const path: seq<Bit>

    constructor (ghost path: seq<Bit>)
      ensures child == [null, null] && gateway == "" && this.path == path
    {
      child, gateway := [null, null], "";
      this.path := path;
    }
  }

  class Table {
    var root: TrieNode
    /** Every node by the bits that lead to it. */
    ghost var nodes: map<seq<Bit>, TrieNode>
    ghost var routes: Routes

    ghost function NodeAt(p: seq<Bit>): TrieNode?
      reads this
    {
      if p in nodes then nodes[p] else null
    }

    ghost predicate Sound(p: seq<Bit>)
      requires p in nodes
      reads this, nodes.Values
    {
      var n := nodes[p];
      && n.path == p && n.gateway == GatewayOf(routes, p)
      && |n.child| == 2 && n.child[0] == NodeAt(p + [0]) && n.child[1] == NodeAt(p + [1])
    }

    ghost predicate HasParent(p: seq<Bit>)
      reads this
    {
      p != [] ==> p[..|p| - 1] in nodes
    }

    ghost predicate Valid()
      reads this, nodes.Values
    {
      && [] in nodes && nodes[[]] == root
      && (forall p {:trigger Sound(p)} :: p in nodes ==> Sound(p))
      && (forall p {:trigger HasParent(p)} :: p in nodes ==> HasParent(p))
      && (forall p :: p in routes ==> p in nodes)
    }

    constructor ()
      ensures Valid() && routes == map[]
    {
      root := new TrieNode([]);
      new;
      nodes, routes := map[[] := root], map[];
    }

    /** The child of the node at `p` for `bit`, made if it is missing. */
    method Descend(ghost p: seq<Bit>, n: TrieNode, bit: Bit) returns (next: TrieNode)
      requires Valid() && NodeAt(p) == n
      modifies this`nodes, n`child
      ensures Valid() && NodeAt(p + [bit]) == next
      ensures old(nodes.Values) <= nodes.Values && fresh(nodes.Values - old(nodes.Values))
    {
      assert Sound(p);
      if n.child[bit] == null {
        var made := new TrieNode(p + [bit]);
        AddChild(p, n, bit, made);
      }
      next := n.child[bit];
    }

    method AddChild(ghost p: seq<Bit>, n: TrieNode, bit: Bit, made: TrieNode)
      requires Valid() && NodeAt(p) == n && |n.child| == 2 && n.child[bit] == null
      requires made !in nodes.Values && made.path == p + [bit] && made.gateway == "" && made.child == [null, null]
      modifies this`nodes, n`child
      ensures Valid() && nodes == old(nodes)[p + [bit] := made] && nodes.Values == old(nodes.Values) + {made}
      ensures |n.child| == 2 && n.child[bit] == made
    {
      ghost var q, before := p + [bit], nodes;
      assert Sound(p);
      NoGrandchild(q, 0);
      NoGrandchild(q, 1);
      n.child := n.child[bit := made];
      nodes := nodes[q := made];
      NewValue(before, q, made);
      forall r | r in nodes ensures Sound(r) {
        if r != q {
          assert old(Sound(r));
          ExtendsOnce(p, bit, r, 0);
          ExtendsOnce(p, bit, r, 1);
        }
      }
      forall r | r in nodes ensures HasParent(r) {
        if r != q {
          assert old(HasParent(r));
        }
      }
    }

    static lemma ExtendsOnce(p: seq<Bit>, x: Bit, r: seq<Bit>, y: Bit)
      ensures r + [y] == p + [x] <==> r == p && y == x
    {
      if |r| == |p| {
        SameAppended(r, y, p, x);
      }
    }

    lemma NoGrandchild(q: seq<Bit>, b: Bit)
      requires Valid() && q !in nodes
      ensures q + [b] !in nodes
    {
      assert (q + [b])[..|q|] == q;
      assert q + [b] in nodes ==> HasParent(q + [b]);
    }

    /** Adds the route for the first `ones` bits of `addr`, replacing any earlier one. */
    method AddRoute(addr: nat, ones: nat, gateway: string)
      requires Valid() && ones <= 32
      modifies this, nodes.Values
      ensures Valid() && fresh(nodes.Values - old(nodes.Values))
      ensures routes == old(routes)[Bits(addr, ones) := gateway]
    {
      var n := root;
      var i := 31;
      ghost var p: seq<Bit> := [];
      while 32 - ones <= i
        invariant 31 - ones <= i <= 31 && p == Bits(addr, 31 - i)
        invariant Valid() && routes == old(routes) && NodeAt(p) == n
        invariant fresh(nodes.Values - old(nodes.Values))
      {
        BitsGrow(addr, 31 - i);
        var bit := GetBit(addr, i);
        n := Descend(p, n, bit);
        p := p + [bit];
        i := i - 1;
      }
      SetGateway(p, n, gateway);
    }

    method SetGateway(ghost p: seq<Bit>, n: TrieNode, gateway: string)
      requires Valid() && NodeAt(p) == n
      modifies this`routes, n`gateway
      ensures Valid() && routes == old(routes)[p := gateway]
    {
      assert Sound(p);
      n.gateway := gateway;
      routes := routes[p := gateway];
      forall r | r in nodes ensures Sound(r) {
        assert old(Sound(r));
      }
      forall r | r in nodes ensures HasParent(r) {
        assert old(HasParent(r));
      }
    }

    /** A missing node has nothing below it. */
    lemma {:induction false} NothingBelow(bits: seq<Bit>, d: nat, k: nat)
      requires Valid() && d <= k <= |bits| && bits[..d] !in nodes
      ensures bits[..k] !in nodes
      decreases k
    {
      if d < k {
        NothingBelow(bits, d, k - 1);
        assert bits[..k][..k - 1] == bits[..k - 1];
        assert bits[..k] in nodes ==> HasParent(bits[..k]);
      }
    }

    /** The walk has taken `d` bits; `n` is the node there, if any, not yet looked at. */
    ghost predicate Walking(bits: seq<Bit>, d: nat, n: TrieNode?, best: string)
      requires d <= |bits|
      reads this
    {
      if n == null then LongestMatch(routes, bits, |bits| + 1, best)
      else NodeAt(bits[..d]) == n && LongestMatch(routes, bits, d, best)
    }

    lemma StepDown(bits: seq<Bit>, d: nat, n: TrieNode, best: string)
      requires Valid() && d < |bits| && Walking(bits, d, n, best) && |n.child| == 2
      ensures Walking(bits, d + 1, n.child[bits[d]], if n.gateway != "" then n.gateway else best)
    {
      var p := bits[..d];
      assert Sound(p);
      assert bits[..d + 1] == p + [bits[d]];
      MatchGrows(routes, bits, d, best);
      if n.child[bits[d]] == null {
        forall k | d + 1 <= k <= |bits| ensures bits[..k] !in routes {
          NothingBelow(bits, d + 1, k);
        }
        NoMatchBeyond(routes, bits, d + 1, if n.gateway != "" then n.gateway else best);
      }
    }

    /** Longest-prefix match among all stored routes. */
    method FindRoute(addr: nat) returns (best: string)
      requires Valid()
      ensures LongestMatch(routes, Bits(addr, 32), 33, best)
    {
      ghost var bits := Bits(addr, 32);
      var n: TrieNode? := root;
      best := "";
      var i := 31;
      assert MatchAt(routes, bits, 0, best, -1) && bits[..0] == [];
      while 0 <= i && n != null
        invariant -1 <= i <= 31 && Walking(bits, 31 - i, n, best)
      {
        assert Sound(bits[..31 - i]);
        StepDown(bits, 31 - i, n, best);
        if n.gateway != "" {
          best := n.gateway;
        }
        var bit := GetBit(addr, i);
        n := n.child[bit];
        i := i - 1;
      }
      if n != null {
        MatchGrows(routes, bits, 32, best);
        assert Sound(bits[..32]);
      }
      if n != null && n.gateway != "" {
        best := n.gateway;
      }
    }
  }

  // Whole histories.

  datatype Added = Added(addr: nat, ones: nat, gateway: string)

  ghost predicate InRange(log: seq<Added>) {
    forall i :: 0 <= i < |log| ==> IsAddress(log[i].addr) && log[i].ones <= 32
  }

  /** The routes after a sequence of additions to an empty table. */
  ghost function After(log: seq<Added>): Routes
    requires InRange(log)
  {
    if log == [] then map[]
    else
      var last := log[|log| - 1];
      After(log[..|log| - 1])[Bits(last.addr, last.ones) := last.gateway]
  }

  /** The gateway given last to the length-`n` prefix of `addr`, comparing addresses as numbers. */
  ghost function LastGiven(log: seq<Added>, addr: nat, n: nat): string
    requires InRange(log) && n <= 32
  {
    if log == [] then ""
    else
      var last := log[|log| - 1];
      if last.ones == n && High(last.addr, n) == High(addr, n) then last.gateway
      else LastGiven(log[..|log| - 1], addr, n)
  }

  lemma {:induction false} LastGivenIsStored(log: seq<Added>, addr: nat, n: nat)
    requires InRange(log) && IsAddress(addr) && n <= 32
    ensures GatewayOf(After(log), Bits(addr, n)) == LastGiven(log, addr, n)
  {
    if log != [] {
      var last := log[|log| - 1];
      LastGivenIsStored(log[..|log| - 1], addr, n);
      if last.ones == n {
        SameBitsSamePrefix(last.addr, addr, n);
      }
    }
  }

  ghost predicate GivenLongest(log: seq<Added>, addr: nat, best: string, n: int)
    requires InRange(log) && n <= 32
  {
    && (n < 0 <==> best == "") && (n >= 0 ==> LastGiven(log, addr, n) == best)
    && forall k :: n < k <= 32 && k >= 0 ==> LastGiven(log, addr, k) == ""
  }

  /** What `FindRoute` answers after any additions: some length `n` whose last-given gateway it is, no
      longer prefix of the address having one; or the empty string when no prefix has one. */
  lemma FindRouteIsLongestPrefix(log: seq<Added>, addr: nat, best: string)
    requires InRange(log) && IsAddress(addr)
    requires LongestMatch(After(log), Bits(addr, 32), 33, best)
    ensures
      exists n :: -1 <= n <= 32 && GivenLongest(log, addr, best, n)
  {
    var bits := Bits(addr, 32);
    var n :| -1 <= n < 33 && MatchAt(After(log), bits, 33, best, n);
    forall k | 0 <= k <= 32 ensures GatewayOf(After(log), bits[..k]) == LastGiven(log, addr, k) {
      assert bits[..k] == Bits(addr, k);
      LastGivenIsStored(log, addr, k);
    }
    assert GivenLongest(log, addr, best, n);
  }
}
