/** Backwards Dijkstra over the channel graph: finds a cheapest payment route and reports its hops. */
module PaymentRouter {
  import opened ChannelGraph
  import opened HeapOrder
  import opened Routes
  import opened RouteTerms
  import opened PathHeap

  datatype PrevHop = PrevHop(node: NodeID, edge: ChannelEdge, amount: int, totalCLTV: int)

  datatype RouteResult = Route(hops: seq<Hop>) | ErrNoPath

  method BuildReverseGraph(g: Graph) returns (reverse: map<NodeID, seq<ChannelEdge>>)
    ensures forall n, e :: n in reverse && e in reverse[n] ==> e in g.AllEdges() && e.to == n
    ensures forall e :: e in g.AllEdges() ==> e.to in reverse && e in reverse[e.to]
  {
    reverse := map[];
    var todo := g.edges.Keys;
    while todo != {}
      invariant todo <= g.edges.Keys
      invariant forall n, e :: n in reverse && e in reverse[n] ==> e in g.AllEdges() && e.to == n
      invariant forall n, e :: n in g.edges && n !in todo && e in g.edges[n] ==> e.to in reverse && e in reverse[e.to]
    {
      var n :| n in todo;
      todo := todo - {n};
      var edges := g.edges[n];
      for i := 0 to |edges|
        invariant forall n, e :: n in reverse && e in reverse[n] ==> e in g.AllEdges() && e.to == n
        invariant forall m, e :: m in g.edges && m !in todo && m != n && e in g.edges[m] ==> e.to in reverse && e in reverse[e.to]
        invariant forall k :: 0 <= k < i ==> edges[k].to in reverse && edges[k] in reverse[edges[k].to]
      {
        var edge := edges[i];
        assert edge in edges;
        var was := if edge.to in reverse then reverse[edge.to] else [];
        reverse := reverse[edge.to := was + [edge]];
      }
    }
  }

  /** The breadcrumbs spell out the walks: each entry is the first edge of its node's walk. */
  ghost predicate Breadcrumbs(dst: NodeID, amount: int, prev: map<NodeID, PrevHop>, best: map<NodeID, Walk>) {
    && prev.Keys == best.Keys - {dst}
    && forall x :: x in prev ==>
         best[x] != [] && prev[x].edge == best[x][0] && prev[x].node == best[x][0].to
         && prev[x].amount == Sent(best[x], amount)
  }

  lemma Regroup(a: seq<Hop>, h: Hop, b: seq<Hop>)
    ensures a + ([h] + b) == (a + [h]) + b
  {
  }

  method ReconstructPath(
    prev: map<NodeID, PrevHop>, src: NodeID, dst: NodeID, amountMsat: int,
    ghost E: set<ChannelEdge>, ghost best: map<NodeID, Walk>) returns (hops: seq<Hop>)
    requires WalkTree(E, dst, amountMsat, best) && Breadcrumbs(dst, amountMsat, prev, best) && src in best
    ensures hops == HopsOf(best[src], amountMsat)
  {
    hops := [];
    var cur := src;
    while cur != dst
      invariant cur in best && hops + HopsOf(best[cur], amountMsat) == HopsOf(best[src], amountMsat)
      decreases |best[cur]|
    {
      var ph := prev[cur];
      var edge := ph.edge;
      var amountIn := ph.amount;
      var amountOut := if ph.node == dst then amountMsat else prev[ph.node].amount;
      var hop := Hop(ph.node, edge.channelID, amountOut, Wrap64(amountIn - amountOut), edge.policy.cltvDelta);
      ghost var w := best[cur];
      assert Extends(dst, best, cur);
      assert amountIn == Sent(w, amountMsat) && amountOut == Sent(w[1..], amountMsat);
      assert hop == HopOver(w[0], amountIn, amountOut);
      Regroup(hops, hop, HopsOf(best[ph.node], amountMsat));
      hops := hops + [hop];
      cur := ph.node;
    }
  }

  /** The Go code's `inHeap` map is exactly the heap, by node. */
  ghost predicate Tracks(inHeap: map<NodeID, PathNode>, h: Heap)
    reads h
  {
    && (forall k :: k in inHeap ==> inHeap[k] in h.Members() && inHeap[k].node == k)
    && (forall m :: m in h.Members() ==> m.node in inHeap && inHeap[m.node] == m)
  }

  /** The amount each waiting node is queued with. */
  ghost function Queued(inHeap: map<NodeID, PathNode>): map<NodeID, int>
    reads inHeap.Values
  {
    map k | k in inHeap :: inHeap[k].amountToSend
  }

  /** Changes the key of a queued node in place and restores the heap around it. */
  method Requeue(h: Heap, existing: PathNode, amount: int, cltv: int)
    requires h.Valid() && existing in h.Members()
    modifies h, h.Members()`index, existing`amountToSend, existing`totalCLTV
    ensures h.Valid() && h.Members() == old(h.Members())
    ensures existing.amountToSend == amount && existing.totalCLTV == cltv
  {
    ghost var ks := h.Keys();
    assert existing in h.items;
    assert h.items[existing.index] == existing;
    OverwriteMakesHole(ks, |ks|, existing.index, Key(amount, cltv));
    existing.amountToSend := amount;
    existing.totalCLTV := cltv;
    assert h.Keys() == ks[existing.index := Key(amount, cltv)];
    h.Fix(existing.index);
  }

  /** Queues a node that is not waiting yet. */
  method PushNew(h: Heap, inHeap: map<NodeID, PathNode>, node: NodeID, amount: int, cltv: int)
    returns (r: map<NodeID, PathNode>)
    requires h.Valid() && Tracks(inHeap, h) && node !in inHeap
    modifies h, h.Members()`index
    ensures h.Valid() && Tracks(r, h) && (forall m :: m in h.Members() ==> m in old(h.Members()) || fresh(m))
    ensures Queued(r) == old(Queued(inHeap))[node := amount]
  {
    var pn := new PathNode(node, amount, cltv);
    h.Push(pn);
    r := inHeap[node := pn];
  }

  /** Lowers the queued amount of a waiting node in place, or queues a new node. */
  method PushOrUpdate(h: Heap, inHeap: map<NodeID, PathNode>, node: NodeID, amount: int, cltv: int)
    returns (r: map<NodeID, PathNode>)
    requires h.Valid() && Tracks(inHeap, h)
    modifies h, h.Members()
    ensures h.Valid() && Tracks(r, h) && (forall m :: m in h.Members() ==> m in old(h.Members()) || fresh(m))
    ensures Queued(r) == old(Queued(inHeap))[node := amount]
  {
    r := inHeap;
    if node in inHeap {
      var existing := inHeap[node];
      Requeue(h, existing, amount, cltv);
    } else {
      r := PushNew(h, inHeap, node, amount, cltv);
    }
  }

  /** The distance map: the known amounts, and INT64_MAX for nodes not reached yet. */
  ghost predicate Distances(dst: NodeID, dist: map<NodeID, int>, nodes: set<NodeID>, amount: int, best: map<NodeID, Walk>) {
    && dist.Keys == nodes + {dst}
    && (forall x :: x in best ==> x in dist && dist[x] == Sent(best[x], amount))
    && (forall x :: x in dist && x !in best ==> dist[x] == INT64_MAX)
  }

  /** The queue holds exactly the nodes that are known but not settled, each with its amount. */
  ghost predicate Waiting(queued: map<NodeID, int>, amount: int, best: map<NodeID, Walk>, settled: set<NodeID>) {
    && queued.Keys == best.Keys - settled
    && forall x :: x in queued ==> queued[x] == Sent(best[x], amount)
  }

  /** The maps of the search describe what it has found out. */
  ghost predicate Recorded(
    nodes: set<NodeID>, dst: NodeID, amount: int, dist: map<NodeID, int>, prev: map<NodeID, PrevHop>,
    queued: map<NodeID, int>, best: map<NodeID, Walk>, settled: set<NodeID>)
  {
    && Distances(dst, dist, nodes, amount, best)
    && Breadcrumbs(dst, amount, prev, best)
    && Waiting(queued, amount, best, settled)
  }

  lemma RecordDistance(
    nodes: set<NodeID>, dst: NodeID, amount: int, dist: map<NodeID, int>, best: map<NodeID, Walk>, n: NodeID, w: Walk)
    requires Distances(dst, dist, nodes, amount, best) && n in nodes
    ensures Distances(dst, dist[n := Sent(w, amount)], nodes, amount, best[n := w])
  {
  }

  lemma RecordCrumb(
    dst: NodeID, amount: int, prev: map<NodeID, PrevHop>, best: map<NodeID, Walk>, e: ChannelEdge, rest: Walk, cltv: int)
    requires Breadcrumbs(dst, amount, prev, best) && e.from != dst
    ensures Breadcrumbs(
      dst, amount, prev[e.from := PrevHop(e.to, e, Sent([e] + rest, amount), cltv)], best[e.from := [e] + rest])
  {
  }

  lemma RecordWait(
    queued: map<NodeID, int>, amount: int, best: map<NodeID, Walk>, settled: set<NodeID>, n: NodeID, w: Walk)
    requires Waiting(queued, amount, best, settled) && n !in settled
    ensures Waiting(queued[n := Sent(w, amount)], amount, best[n := w], settled)
  {
  }

  lemma RecordOne(
    nodes: set<NodeID>, dst: NodeID, amount: int, dist: map<NodeID, int>, prev: map<NodeID, PrevHop>,
    queued: map<NodeID, int>, best: map<NodeID, Walk>, settled: set<NodeID>, e: ChannelEdge, a: int, cltv: int)
    requires Recorded(nodes, dst, amount, dist, prev, queued, best, settled)
    requires e.from in nodes && e.from !in settled && e.from != dst && e.to in best
    requires a == Sent([e] + best[e.to], amount)
    ensures Recorded(
      nodes, dst, amount, dist[e.from := a], prev[e.from := PrevHop(e.to, e, a, cltv)],
      queued[e.from := a], best[e.from := [e] + best[e.to]], settled)
  {
    RecordDistance(nodes, dst, amount, dist, best, e.from, [e] + best[e.to]);
    RecordCrumb(dst, amount, prev, best, e, best[e.to], cltv);
    RecordWait(queued, amount, best, settled, e.from, [e] + best[e.to]);
  }

  /** The search between two pops. */
  ghost predicate Searching(
    E: set<ChannelEdge>, nodes: set<NodeID>, dst: NodeID, amount: int, dist: map<NodeID, int>,
    prev: map<NodeID, PrevHop>, queued: map<NodeID, int>, best: map<NodeID, Walk>, settled: set<NodeID>)
  {
    && WalkTree(E, dst, amount, best) && settled <= best.Keys
    && InOrder(dst, amount, best, settled) && Relaxed(E, settled, amount, best)
    && Recorded(nodes, dst, amount, dist, prev, queued, best, settled)
  }

  /** The search after popping `cur`, with the edges `done` into it relaxed. */
  ghost predicate Relaxing(
    E: set<ChannelEdge>, nodes: set<NodeID>, dst: NodeID, amount: int, dist: map<NodeID, int>,
    prev: map<NodeID, PrevHop>, queued: map<NodeID, int>, best: map<NodeID, Walk>, settled: set<NodeID>,
    cur: NodeID, done: seq<ChannelEdge>)
  {
    && Searched(E, dst, amount, best, settled, cur)
    && RelaxedUpTo(E, settled, amount, best, cur, done)
    && Recorded(nodes, dst, amount, dist, prev, queued, best, settled)
  }

  lemma Start(E: set<ChannelEdge>, nodes: set<NodeID>, dst: NodeID, amount: int, dist: map<NodeID, int>)
    requires dist.Keys == nodes + {dst} && dist[dst] == amount
    requires forall x :: x in dist && x != dst ==> dist[x] == INT64_MAX
    ensures Searching(E, nodes, dst, amount, dist, map[], map[dst := amount], map[dst := []], {})
  {
  }

  /** A least queued node is a cheapest one among those not settled. */
  lemma LeastQueued(
    queued: map<NodeID, int>, amount: int, best: map<NodeID, Walk>, settled: set<NodeID>, cur: NodeID)
    requires Waiting(queued, amount, best, settled) && settled <= best.Keys
    requires cur in queued && forall x :: x in queued ==> queued[cur] <= queued[x]
    ensures cur in best && cur !in settled && queued[cur] == Sent(best[cur], amount)
    ensures FrontierAtLeast(settled, amount, best, queued[cur])
  {
    forall x | x in best && x !in settled ensures queued[cur] <= Sent(best[x], amount) {
      assert x in queued;
    }
  }

  lemma RecordedPop(
    nodes: set<NodeID>, dst: NodeID, amount: int, dist: map<NodeID, int>, prev: map<NodeID, PrevHop>,
    queued: map<NodeID, int>, best: map<NodeID, Walk>, settled: set<NodeID>, cur: NodeID)
    requires Recorded(nodes, dst, amount, dist, prev, queued, best, settled) && cur in queued
    ensures Recorded(nodes, dst, amount, dist, prev, queued - {cur}, best, settled + {cur})
  {
  }

  /** Popping a least queued node settles it. */
  lemma PopOne(
    E: set<ChannelEdge>, nodes: set<NodeID>, dst: NodeID, amount: int, dist: map<NodeID, int>,
    prev: map<NodeID, PrevHop>, queued: map<NodeID, int>, best: map<NodeID, Walk>, settled: set<NodeID>, cur: NodeID)
    requires Searching(E, nodes, dst, amount, dist, prev, queued, best, settled)
    requires cur in queued && forall x :: x in queued ==> queued[cur] <= queued[x]
    ensures cur in best && cur !in settled && queued[cur] == Sent(best[cur], amount)
    ensures FrontierAtLeast(settled, amount, best, queued[cur])
    ensures Relaxing(E, nodes, dst, amount, dist, prev, queued - {cur}, best, settled + {cur}, cur, [])
  {
    LeastQueued(queued, amount, best, settled, cur);
    SettleOne(E, dst, amount, best, settled, cur);
    RecordedPop(nodes, dst, amount, dist, prev, queued, best, settled, cur);
  }

  lemma StopAtSource(
    E: set<ChannelEdge>, nodes: set<NodeID>, dst: NodeID, amount: int, dist: map<NodeID, int>,
    prev: map<NodeID, PrevHop>, queued: map<NodeID, int>, best: map<NodeID, Walk>, settled: set<NodeID>, src: NodeID)
    requires Searching(E, nodes, dst, amount, dist, prev, queued, best, settled)
    requires src in queued && FrontierAtLeast(settled, amount, best, queued[src])
    ensures Finished(E, src, dst, amount, best, settled, true)
  {
  }

  lemma StopEmpty(
    E: set<ChannelEdge>, nodes: set<NodeID>, dst: NodeID, amount: int, dist: map<NodeID, int>,
    prev: map<NodeID, PrevHop>, best: map<NodeID, Walk>, settled: set<NodeID>, src: NodeID)
    requires Searching(E, nodes, dst, amount, dist, prev, map[], best, settled) && src !in settled
    ensures Finished(E, src, dst, amount, best, settled, false)
  {
  }

  lemma FinishOne(
    E: set<ChannelEdge>, nodes: set<NodeID>, dst: NodeID, amount: int, dist: map<NodeID, int>,
    prev: map<NodeID, PrevHop>, queued: map<NodeID, int>, best: map<NodeID, Walk>, settled: set<NodeID>,
    cur: NodeID, into: seq<ChannelEdge>)
    requires Relaxing(E, nodes, dst, amount, dist, prev, queued, best, settled, cur, into)
    requires forall e :: e in E && e.to == cur ==> e in into
    ensures Searching(E, nodes, dst, amount, dist, prev, queued, best, settled)
  {
  }

  /** An edge into `cur` that offers something better is recorded everywhere. */
  lemma TakeEdge(
    E: set<ChannelEdge>, nodes: set<NodeID>, dst: NodeID, amount: int, limit: int, dist: map<NodeID, int>,
    prev: map<NodeID, PrevHop>, queued: map<NodeID, int>, best: map<NodeID, Walk>, settled: set<NodeID>,
    cur: NodeID, done: seq<ChannelEdge>, e: ChannelEdge, a: int, cltv: int)
    requires WithinRange(E, amount, limit) && e in E && e.from in nodes && e.to == cur
    requires Relaxing(E, nodes, dst, amount, dist, prev, queued, best, settled, cur, done)
    requires a == Incoming(e, Sent(best[cur], amount)) && EdgePassesFilters(e, a) && a < dist[e.from]
    ensures Relaxing(
      E, nodes, dst, amount, dist[e.from := a], prev[e.from := PrevHop(cur, e, a, cltv)],
      queued[e.from := a], best[e.from := [e] + best[cur]], settled, cur, done + [e])
    ensures e.from != cur
  {
    RelaxOne(E, dst, amount, limit, best, settled, cur, e);
    RecordOne(nodes, dst, amount, dist, prev, queued, best, settled, e, a, cltv);
  }

  /** An edge that is passed over offered nothing. */
  lemma PassOver(
    E: set<ChannelEdge>, nodes: set<NodeID>, dst: NodeID, amount: int, limit: int, dist: map<NodeID, int>,
    prev: map<NodeID, PrevHop>, queued: map<NodeID, int>, best: map<NodeID, Walk>, settled: set<NodeID>,
    cur: NodeID, done: seq<ChannelEdge>, e: ChannelEdge, a: int)
    requires WithinRange(E, amount, limit) && e in E && e.from in nodes && e.to == cur
    requires Relaxing(E, nodes, dst, amount, dist, prev, queued, best, settled, cur, done)
    requires a == Incoming(e, Sent(best[cur], amount)) && !(EdgePassesFilters(e, a) && a < dist[e.from])
    ensures Relaxing(E, nodes, dst, amount, dist, prev, queued, best, settled, cur, done + [e])
  {
    if EdgePassesFilters(e, a) {
      PassingFits(e, a, limit);
    }
  }

  /** Pops a node queued with a least amount. */
  method PopCheapest(h: Heap, inHeap: map<NodeID, PathNode>) returns (cur: PathNode, r: map<NodeID, PathNode>)
    requires h.Valid() && Tracks(inHeap, h) && h.items != []
    modifies h, h.Members()`index
    ensures h.Valid() && Tracks(r, h) && h.Members() <= old(h.Members())
    ensures cur.node in inHeap && old(Queued(inHeap))[cur.node] == cur.amountToSend
    ensures Queued(r) == old(Queued(inHeap)) - {cur.node}
    ensures forall x :: x in inHeap ==> cur.amountToSend <= old(Queued(inHeap))[x]
  {
    cur := h.Pop();
    r := inHeap - {cur.node};
    forall x | x in inHeap ensures cur.amountToSend <= old(Queued(inHeap))[x] {
      assert !Before(inHeap[x].SortKey(), cur.SortKey());
    }
  }

  /** Relaxes the edges into the node just settled. */
  method RelaxInto(
    into: seq<ChannelEdge>, cur: NodeID, curAmount: int, curCLTV: int, h: Heap,
    dist0: map<NodeID, int>, prev0: map<NodeID, PrevHop>, inHeap0: map<NodeID, PathNode>,
    ghost E: set<ChannelEdge>, ghost nodes: set<NodeID>, ghost dst: NodeID, ghost amount: int, ghost limit: int,
    ghost best0: map<NodeID, Walk>, ghost settled: set<NodeID>)
    returns (dist: map<NodeID, int>, prev: map<NodeID, PrevHop>, inHeap: map<NodeID, PathNode>, ghost best: map<NodeID, Walk>)
    requires WithinRange(E, amount, limit)
    requires forall e :: e in into ==> e in E && e.to == cur && e.from in nodes
    requires h.Valid() && Tracks(inHeap0, h)
    requires Relaxing(E, nodes, dst, amount, dist0, prev0, Queued(inHeap0), best0, settled, cur, [])
    requires curAmount == Sent(best0[cur], amount)
    modifies h, h.Members()
    ensures h.Valid() && Tracks(inHeap, h) && (forall m :: m in h.Members() ==> m in old(h.Members()) || fresh(m))
    ensures Relaxing(E, nodes, dst, amount, dist, prev, Queued(inHeap), best, settled, cur, into)
  {
    dist, prev, inHeap, best := dist0, prev0, inHeap0, best0;
    for i := 0 to |into|
      invariant h.Valid() && Tracks(inHeap, h) && (forall m :: m in h.Members() ==> m in old(h.Members()) || fresh(m))
      invariant Relaxing(E, nodes, dst, amount, dist, prev, Queued(inHeap), best, settled, cur, into[..i])
      invariant curAmount == Sent(best[cur], amount)
    {
      var edge := into[i];
      assert edge in into && into[..i + 1] == into[..i] + [edge];
      var incomingAmount := Incoming(edge, curAmount);
      var newCLTV := Wrap32(curCLTV + edge.policy.cltvDelta);
      if EdgePassesFilters(edge, incomingAmount) && incomingAmount < dist[edge.from] {
        TakeEdge(E, nodes, dst, amount, limit, dist, prev, Queued(inHeap), best, settled, cur, into[..i], edge, incomingAmount, newCLTV);
        dist := dist[edge.from := incomingAmount];
        prev := prev[edge.from := PrevHop(cur, edge, incomingAmount, newCLTV)];
        inHeap := PushOrUpdate(h, inHeap, edge.from, incomingAmount, newCLTV);
        best := best[edge.from := [edge] + best[cur]];
      } else {
        PassOver(E, nodes, dst, amount, limit, dist, prev, Queued(inHeap), best, settled, cur, into[..i], edge, incomingAmount);
      }
    }
    assert into[..|into|] == into;
  }

  /** `reverse` lists exactly the edges, each under the node it leads to. */
  ghost predicate Reverses(reverse: map<NodeID, seq<ChannelEdge>>, E: set<ChannelEdge>) {
    && (forall n, e :: n in reverse && e in reverse[n] ==> e in E && e.to == n)
    && (forall e :: e in E ==> e.to in reverse && e in reverse[e.to])
  }

  function EdgesInto(reverse: map<NodeID, seq<ChannelEdge>>, n: NodeID): seq<ChannelEdge> {
    if n in reverse then reverse[n] else []
  }

  lemma AllEdgesInto(reverse: map<NodeID, seq<ChannelEdge>>, E: set<ChannelEdge>, nodes: set<NodeID>, n: NodeID)
    requires Reverses(reverse, E) && forall e :: e in E ==> e.from in nodes
    ensures forall e :: e in EdgesInto(reverse, n) ==> e in E && e.to == n && e.from in nodes
    ensures forall e :: e in E && e.to == n ==> e in EdgesInto(reverse, n)
  {
  }

  /** One turn of the main loop: pops the cheapest waiting node and, unless that is the source,
      relaxes the edges into it. */
  method SettleNext(
    nodes: set<NodeID>, reverse: map<NodeID, seq<ChannelEdge>>, src: NodeID, dst: NodeID, amountMsat: int, h: Heap,
    dist0: map<NodeID, int>, prev0: map<NodeID, PrevHop>, inHeap0: map<NodeID, PathNode>,
    ghost E: set<ChannelEdge>, ghost limit: int, ghost best0: map<NodeID, Walk>, ghost settled0: set<NodeID>)
    returns (hit: bool, dist: map<NodeID, int>, prev: map<NodeID, PrevHop>, inHeap: map<NodeID, PathNode>,
             ghost best: map<NodeID, Walk>, ghost settled: set<NodeID>)
    requires Reverses(reverse, E) && WithinRange(E, amountMsat, limit)
    requires forall e :: e in E ==> e.from in nodes
    requires h.Valid() && Tracks(inHeap0, h) && h.items != [] && src !in settled0
    requires Searching(E, nodes, dst, amountMsat, dist0, prev0, Queued(inHeap0), best0, settled0)
    modifies h, h.Members()
    ensures h.Valid() && Tracks(inHeap, h) && (forall m :: m in h.Members() ==> m in old(h.Members()) || fresh(m))
    ensures hit ==>
      && Finished(E, src, dst, amountMsat, best, settled, true)
      && Breadcrumbs(dst, amountMsat, prev, best)
    ensures !hit ==>
      && Searching(E, nodes, dst, amountMsat, dist, prev, Queued(inHeap), best, settled)
      && src !in settled && settled0 < settled <= nodes + {dst}
  {
    dist, prev, best, settled := dist0, prev0, best0, settled0;
    ghost var queued := Queued(inHeap0);
    var cur;
    cur, inHeap := PopCheapest(h, inHeap0);
    PopOne(E, nodes, dst, amountMsat, dist, prev, queued, best, settled, cur.node);
    hit := cur.node == src;
    if hit {
      StopAtSource(E, nodes, dst, amountMsat, dist, prev, queued, best, settled, src);
    } else {
      settled := settled + {cur.node};
      dist, prev, inHeap, best := Expand(
        nodes, reverse, dst, amountMsat, cur, h, dist, prev, inHeap, E, limit, best, settled);
    }
  }

  /** Relaxes all edges into the popped node, which then counts as settled. */
  method Expand(
    nodes: set<NodeID>, reverse: map<NodeID, seq<ChannelEdge>>, dst: NodeID, amountMsat: int, cur: PathNode, h: Heap,
    dist0: map<NodeID, int>, prev0: map<NodeID, PrevHop>, inHeap0: map<NodeID, PathNode>,
    ghost E: set<ChannelEdge>, ghost limit: int, ghost best0: map<NodeID, Walk>, ghost settled: set<NodeID>)
    returns (dist: map<NodeID, int>, prev: map<NodeID, PrevHop>, inHeap: map<NodeID, PathNode>, ghost best: map<NodeID, Walk>)
    requires Reverses(reverse, E) && WithinRange(E, amountMsat, limit)
    requires forall e :: e in E ==> e.from in nodes
    requires h.Valid() && Tracks(inHeap0, h) && cur.node in best0 && cur.amountToSend == Sent(best0[cur.node], amountMsat)
    requires Relaxing(E, nodes, dst, amountMsat, dist0, prev0, Queued(inHeap0), best0, settled, cur.node, [])
    modifies h, h.Members()
    ensures h.Valid() && Tracks(inHeap, h) && (forall m :: m in h.Members() ==> m in old(h.Members()) || fresh(m))
    ensures Searching(E, nodes, dst, amountMsat, dist, prev, Queued(inHeap), best, settled)
  {
    var node := cur.node;
    var into := EdgesInto(reverse, node);
    AllEdgesInto(reverse, E, nodes, node);
    dist, prev, inHeap, best := RelaxInto(
      into, node, cur.amountToSend, cur.totalCLTV, h, dist0, prev0, inHeap0, E, nodes, dst, amountMsat, limit, best0, settled);
    FinishOne(E, nodes, dst, amountMsat, dist, prev, Queued(inHeap), best, settled, node, into);
  }

  lemma NothingTracked(inHeap: map<NodeID, PathNode>, h: Heap)
    requires Tracks(inHeap, h) && h.items == []
    ensures inHeap == map[] && Queued(inHeap) == map[]
  {
  }

  /** The main loop: searches backwards from `dst` until `src` is popped or nothing is waiting. */
  method Search(
    nodes: set<NodeID>, reverse: map<NodeID, seq<ChannelEdge>>, src: NodeID, dst: NodeID, amountMsat: int,
    ghost E: set<ChannelEdge>, ghost limit: int)
    returns (hit: bool, prev: map<NodeID, PrevHop>, ghost best: map<NodeID, Walk>, ghost settled: set<NodeID>)
    requires Reverses(reverse, E) && WithinRange(E, amountMsat, limit)
    requires forall e :: e in E ==> e.from in nodes
    ensures Finished(E, src, dst, amountMsat, best, settled, hit)
    ensures hit ==> Breadcrumbs(dst, amountMsat, prev, best)
  {
    var h, dist, inHeap;
    h, dist, inHeap := Begin(nodes, dst, amountMsat, E);
    prev := map[];
    best, settled, hit := map[dst := []], {}, false;
    while h.items != []
      invariant h.Valid() && Tracks(inHeap, h) && fresh(h) && (forall m :: m in h.Members() ==> fresh(m))
      invariant Searching(E, nodes, dst, amountMsat, dist, prev, Queued(inHeap), best, settled)
      invariant src !in settled
      decreases nodes + {dst} - settled
    {
      hit, dist, prev, inHeap, best, settled :=
        SettleNext(nodes, reverse, src, dst, amountMsat, h, dist, prev, inHeap, E, limit, best, settled);
      if hit {
        return;
      }
    }
    NothingTracked(inHeap, h);
    StopEmpty(E, nodes, dst, amountMsat, dist, prev, best, settled, src);
    hit := false;
  }

  /** The state before the loop: only the destination is known, and it is waiting. */
  method Begin(nodes: set<NodeID>, dst: NodeID, amountMsat: int, ghost E: set<ChannelEdge>)
    returns (h: Heap, dist: map<NodeID, int>, inHeap: map<NodeID, PathNode>)
    ensures fresh(h) && h.Valid() && Tracks(inHeap, h) && (forall m :: m in h.Members() ==> fresh(m))
    ensures Searching(E, nodes, dst, amountMsat, dist, map[], Queued(inHeap), map[dst := []], {})
  {
    dist := (map n | n in nodes && n != dst :: INT64_MAX)[dst := amountMsat];
    h := new Heap();
    inHeap := PushNew(h, map[], dst, amountMsat, 0);
    Start(E, nodes, dst, amountMsat, dist);
  }

  /** The answer comes from a finished search: a route is the hops of the source's walk in it. */
  ghost predicate Answers(
    E: set<ChannelEdge>, src: NodeID, dst: NodeID, amount: int, result: RouteResult,
    best: map<NodeID, Walk>, settled: set<NodeID>)
  {
    && Finished(E, src, dst, amount, best, settled, result.Route?)
    && (result.Route? ==> result.hops == HopsOf(best[src], amount))
  }

  method FindPath(g: Graph, src: NodeID, dst: NodeID, amountMsat: int, ghost limit: int) returns (result: RouteResult)
    requires g.Valid() && WithinRange(g.AllEdges(), amountMsat, limit)
    ensures exists best, settled :: Answers(g.AllEdges(), src, dst, amountMsat, result, best, settled)
    ensures result.Route? ==>
      exists w :: Payable(g.AllEdges(), src, dst, w, amountMsat) && result.hops == HopsOf(w, amountMsat)
    ensures MinimumsMet(g.AllEdges(), amountMsat) ==>
      match result
      case Route(hops) => exists w :: Cheapest(g.AllEdges(), src, dst, w, amountMsat) && hops == HopsOf(w, amountMsat)
      case ErrNoPath => !exists w :: Payable(g.AllEdges(), src, dst, w, amountMsat)
    ensures InBareTerms(g.AllEdges(), src, dst, amountMsat, result)
  {
    var reverse := BuildReverseGraph(g);
    ghost var best, settled;
    var hit, prev;
    hit, prev, best, settled := Search(g.nodes, reverse, src, dst, amountMsat, g.AllEdges(), limit);
    result := ErrNoPath;
    if hit {
      var hops := ReconstructPath(prev, src, dst, amountMsat, g.AllEdges(), best);
      result := Route(hops);
      assert Extends(dst, best, src);
      assert Payable(g.AllEdges(), src, dst, best[src], amountMsat);
    }
    Optimal(g.AllEdges(), src, dst, amountMsat, limit, best, settled, hit);
    assert Answers(g.AllEdges(), src, dst, amountMsat, result, best, settled);
    AnswerInTerms(g.AllEdges(), src, dst, amountMsat, limit, result, if result.Route? then best[src] else []);
  }

  /** The answer without any of the router's own functions: the hops belong to channels that carry the
      payment, and with `MinimumsMet` no other way to deliver it takes less; no path means no way at all. */
  ghost predicate InBareTerms(E: set<ChannelEdge>, src: NodeID, dst: NodeID, amount: int, result: RouteResult) {
    && (result.Route? ==> exists w, amounts :: Delivers(E, src, dst, w, amounts, amount) && HopsTell(w, amounts, result.hops))
    && (MinimumsMet(E, amount) ==>
         match result
         case Route(hops) => exists w, amounts :: LeastRoute(E, src, dst, amount, hops, w, amounts)
         case ErrNoPath => !exists w, amounts :: Delivers(E, src, dst, w, amounts, amount))
  }

  lemma AnswerInTerms(
    E: set<ChannelEdge>, src: NodeID, dst: NodeID, amount: int, limit: int, result: RouteResult, w: Walk)
    requires WithinRange(E, amount, limit)
    requires result.Route? ==> Payable(E, src, dst, w, amount) && result.hops == HopsOf(w, amount)
    requires MinimumsMet(E, amount) ==>
      if result.Route? then Cheapest(E, src, dst, w, amount) else !exists v :: Payable(E, src, dst, v, amount)
    ensures InBareTerms(E, src, dst, amount, result)
  {
    NoRouteInTerms(E, src, dst, amount, limit);
    if result.Route? {
      RouteInTerms(E, src, dst, w, amount, limit);
    }
  }

  lemma Optimal(
    E: set<ChannelEdge>, src: NodeID, dst: NodeID, amount: int, limit: int,
    best: map<NodeID, Walk>, settled: set<NodeID>, found: bool)
    requires WithinRange(E, amount, limit) && Finished(E, src, dst, amount, best, settled, found)
    ensures MinimumsMet(E, amount) ==>
      && (found ==> Cheapest(E, src, dst, best[src], amount))
      && (found <==> exists w :: Payable(E, src, dst, w, amount))
  {
    if MinimumsMet(E, amount) {
      FinishedIsOptimal(E, src, dst, amount, limit, best, settled, found);
    }
  }

  /** A channel for up to `max` msat whose only other terms are its base fee and its minimum. */
  function PlainEdge(id: int, from: NodeID, to: NodeID, baseFee: int, minHTLC: int, max: int): ChannelEdge {
    ChannelEdge(id, from, to, max, ChannelPolicy(baseFee, 0, 40, false, minHTLC, max))
  }

  function Narrow(a: NodeID, b: NodeID, min: int): ChannelEdge { PlainEdge(1, a, b, 0, min, min) }

  function Cheap(b: NodeID, c: NodeID, min: int): ChannelEdge { PlainEdge(2, b, c, 0, 0, min) }

  function Dear(b: NodeID, c: NodeID, amount: int, min: int): ChannelEdge { PlainEdge(3, b, c, min - amount, 0, min) }

  /** One channel that takes no less than `min`, followed by a choice of a free channel and of one whose
      fee makes `amount` into `min`. */
  function SmallNetwork(a: NodeID, b: NodeID, c: NodeID, amount: int, min: int): set<ChannelEdge> {
    {Narrow(a, b, min), Cheap(b, c, min), Dear(b, c, amount, min)}
  }

  /** Amounts for which nothing wraps: capacities count 1000 msat each. */
  predicate Roomy(amount: int, min: int) { 0 <= amount < min && 1001 * min <= INT64_MAX }

  lemma SmallNetworkInRange(a: NodeID, b: NodeID, c: NodeID, amount: int, min: int)
    requires Roomy(amount, min)
    ensures WithinRange(SmallNetwork(a, b, c, amount, min), amount, 1000 * min)
  {
  }

  lemma PlainIncoming(id: int, from: NodeID, to: NodeID, baseFee: int, minHTLC: int, max: int, sent: int)
    requires 0 <= baseFee && 0 <= sent && sent + baseFee <= INT64_MAX
    ensures Incoming(PlainEdge(id, from, to, baseFee, minHTLC, max), sent) == sent + baseFee
    ensures 0 <= max && 1000 * max <= INT64_MAX ==>
      (EdgePassesFilters(PlainEdge(id, from, to, baseFee, minHTLC, max), sent) <==> minHTLC <= sent <= max)
  {
  }

  /** No walk from `b` or `a` ever costs less than the minimum at `a`, and one from `b` is either free or
      costs exactly the minimum. */
  lemma SmallNetworkTree(a: NodeID, b: NodeID, c: NodeID, amount: int, min: int, best: map<NodeID, Walk>)
    requires a != b && b != c && a != c && Roomy(amount, min)
    requires WalkTree(SmallNetwork(a, b, c, amount, min), c, amount, best)
    ensures b in best ==> Sent(best[b], amount) == amount || Sent(best[b], amount) == min
    ensures a in best ==> b in best && Sent(best[a], amount) == Sent(best[b], amount) >= min
  {
    var E := SmallNetwork(a, b, c, amount, min);
    PlainIncoming(2, b, c, 0, 0, min, amount);
    PlainIncoming(3, b, c, min - amount, 0, min, amount);
    if b in best {
      assert Extends(c, best, b) && Payable(E, b, c, best[b], amount);
      assert best[b][1..] == [];
    }
    if a in best {
      assert Extends(c, best, a) && Payable(E, a, c, best[a], amount);
      PlainIncoming(1, a, b, 0, min, min, Sent(best[b], amount));
    }
  }

  lemma DearWalk(a: NodeID, b: NodeID, c: NodeID, amount: int, min: int)
    requires Roomy(amount, min)
    ensures Payable(SmallNetwork(a, b, c, amount, min), a, c, [Narrow(a, b, min), Dear(b, c, amount, min)], amount)
  {
    var first, dear := Narrow(a, b, min), Dear(b, c, amount, min);
    assert [first, dear][1..] == [dear] && [dear][1..] == [];
    PlainIncoming(3, b, c, min - amount, 0, min, amount);
    PlainIncoming(3, b, c, min - amount, 0, min, min);
    PlainIncoming(1, a, b, 0, min, min, min);
    assert Sent([], amount) == amount;
    assert Sent([dear], amount) == min && Feasible([dear], amount);
    assert Sent([first, dear], amount) == min;
  }

  /** Why the minimums matter, and that no weaker condition on them will do: for every payment below a
      channel's minimum there is a network in range where every finished search misses a route. Paying
      over the dear second channel would enter the payer's only channel with its minimum, but the search
      keeps the cheap one, which enters it with less. */
  lemma MinimumHidesRoute(
    a: NodeID, b: NodeID, c: NodeID, amount: int, min: int,
    result: RouteResult, best: map<NodeID, Walk>, settled: set<NodeID>)
    requires a != b && b != c && a != c && Roomy(amount, min)
    requires Answers(SmallNetwork(a, b, c, amount, min), a, c, amount, result, best, settled)
    ensures WithinRange(SmallNetwork(a, b, c, amount, min), amount, 1000 * min)
    ensures Payable(SmallNetwork(a, b, c, amount, min), a, c, [Narrow(a, b, min), Dear(b, c, amount, min)], amount)
    ensures result == ErrNoPath
  {
    SmallNetworkInRange(a, b, c, amount, min);
    DearWalk(a, b, c, amount, min);
    assert result.Route? ==> a in best;
    SmallNetworkTree(a, b, c, amount, min, best);
    PlainIncoming(2, b, c, 0, 0, min, amount);
    assert Sent(best[c], amount) == amount;
    assert c in settled ==> RelaxedEdge(Cheap(b, c, min), amount, best);
  }

  /** An instance: a payment of 1000 msat and a minimum of 1005. */
  lemma MinimumHidesRouteOf1000(
    a: NodeID, b: NodeID, c: NodeID, result: RouteResult, best: map<NodeID, Walk>, settled: set<NodeID>)
    requires a != b && b != c && a != c
    requires Answers(SmallNetwork(a, b, c, 1000, 1005), a, c, 1000, result, best, settled)
    ensures result == ErrNoPath
    ensures exists w :: Payable(SmallNetwork(a, b, c, 1000, 1005), a, c, w, 1000)
  {
    MinimumHidesRoute(a, b, c, 1000, 1005, result, best, settled);
  }
}
