/** What a payment route is, and why labels that are relaxed everywhere are least.
    A walk lists its edges from the paying side to the receiving side. */
module Routes {
  import opened ChannelGraph

  type Walk = seq<ChannelEdge>

  ghost predicate IsWalk(E: set<ChannelEdge>, src: NodeID, dst: NodeID, w: Walk)
    decreases w
  {
    if w == [] then src == dst
    else w[0] in E && w[0].from == src && IsWalk(E, w[0].to, dst, w[1..])
  }

  /** What the first node has to send so that `amount` arrives; the fees compound backwards. */
  ghost function Sent(w: Walk, amount: int): int {
    if w == [] then amount else Incoming(w[0], Sent(w[1..], amount))
  }

  /** Every edge passes its filters at the amount that enters it. */
  ghost predicate Feasible(w: Walk, amount: int) {
    w == [] || (EdgePassesFilters(w[0], Sent(w, amount)) && Feasible(w[1..], amount))
  }

  ghost predicate Payable(E: set<ChannelEdge>, src: NodeID, dst: NodeID, w: Walk, amount: int) {
    IsWalk(E, src, dst, w) && Feasible(w, amount)
  }

  /** A walk on which nobody could pay less. */
  ghost predicate Cheapest(E: set<ChannelEdge>, src: NodeID, dst: NodeID, w: Walk, amount: int) {
    && Payable(E, src, dst, w, amount)
    && forall other :: Payable(E, src, dst, other, amount) ==> Sent(w, amount) <= Sent(other, amount)
  }

  /** The payment fits the limit under which no fee computation overflows. */
  ghost predicate WithinRange(E: set<ChannelEdge>, amount: int, limit: int) {
    0 <= amount <= limit && amount < INT64_MAX && forall e :: e in E ==> Sane(e, limit)
  }

  /** No enabled edge refuses the payment itself for being too small. */
  predicate MinimumsMet(E: set<ChannelEdge>, amount: int) {
    forall e :: e in E && !e.policy.disabled ==> e.policy.minHTLC <= amount
  }

  datatype Hop = Hop(nodeID: NodeID, channelID: int, amtToForward: int, fee: int, cltvDelta: int)

  /** The hop over `edge` with `amountIn` entering and `amountOut` leaving it. */
  function HopOver(edge: ChannelEdge, amountIn: int, amountOut: int): Hop {
    Hop(edge.to, edge.channelID, amountOut, Wrap64(amountIn - amountOut), edge.policy.cltvDelta)
  }

  /** The hop list of a walk, as the Go code reports it. */
  ghost function HopsOf(w: Walk, amount: int): seq<Hop> {
    if w == [] then []
    else [HopOver(w[0], Sent(w, amount), Sent(w[1..], amount))] + HopsOf(w[1..], amount)
  }

  ghost function TotalFee(hops: seq<Hop>): int {
    if hops == [] then 0 else hops[0].fee + TotalFee(hops[1..])
  }

  /** Amounts along a payable walk stay between the payment and the limit. */
  lemma {:induction false} SentInRange(E: set<ChannelEdge>, src: NodeID, dst: NodeID, w: Walk, amount: int, limit: int)
    requires WithinRange(E, amount, limit) && Payable(E, src, dst, w, amount)
    ensures amount <= Sent(w, amount) <= limit
    decreases w
  {
    if w != [] {
      SentInRange(E, w[0].to, dst, w[1..], amount, limit);
      var a := Sent(w[1..], amount);
      IncomingMonotone(w[0], a, a, limit);
      PassingFits(w[0], Incoming(w[0], a), limit);
    }
  }

  /** The node a walk stands at before its edge `k`. */
  ghost function NodeAt(dst: NodeID, w: Walk, k: nat): NodeID
    requires k <= |w|
  {
    if k < |w| then w[k].from else dst
  }

  lemma {:induction false} PayableSuffix(E: set<ChannelEdge>, src: NodeID, dst: NodeID, w: Walk, amount: int, k: nat)
    requires Payable(E, src, dst, w, amount) && k <= |w|
    ensures Payable(E, NodeAt(dst, w, k), dst, w[k..], amount)
    ensures k > 0 ==> w[k - 1].to == NodeAt(dst, w, k)
    ensures k < |w| ==> w[k] in E
    decreases w
  {
    if k == 0 {
      assert w[0..] == w;
    } else {
      PayableSuffix(E, w[0].to, dst, w[1..], amount, k - 1);
      assert w[k..] == w[1..][k - 1..];
    }
  }

  lemma {:induction false} HopAt(w: Walk, amount: int, k: nat)
    requires k < |w|
    ensures |HopsOf(w, amount)| == |w|
    ensures HopsOf(w, amount)[k] == HopOver(w[k], Sent(w[k..], amount), Sent(w[k + 1..], amount))
    decreases w
  {
    if |w| > 1 {
      HopAt(w[1..], amount, if k == 0 then 0 else k - 1);
    }
    if k > 0 {
      assert w[1..][k - 1..] == w[k..] && w[1..][k..] == w[k + 1..];
    }
  }

  /** Hop `k` of a payable walk names the node edge `k` leads to and forwards exactly what has to
      arrive there: the payment itself at the end, otherwise the next hop's forwarded amount and fee.
      Its fee is what its channel charges on that amount, and the channel passed its filters. */
  lemma HopAccounts(E: set<ChannelEdge>, src: NodeID, dst: NodeID, w: Walk, amount: int, limit: int, k: nat)
    requires WithinRange(E, amount, limit) && Payable(E, src, dst, w, amount) && k < |w|
    ensures |HopsOf(w, amount)| == |w| && w[k] in E
    ensures
      var hops := HopsOf(w, amount);
      var h := hops[k];
      && h.channelID == w[k].channelID && h.nodeID == w[k].to && h.cltvDelta == w[k].policy.cltvDelta
      && h.fee == HopFee(w[k].policy, h.amtToForward) && 0 <= h.fee
      && EdgePassesFilters(w[k], h.amtToForward + h.fee)
      && (if k + 1 < |w|
          then w[k + 1].from == h.nodeID && h.amtToForward == hops[k + 1].amtToForward + hops[k + 1].fee
          else h.nodeID == dst && h.amtToForward == amount)
      && h.amtToForward + h.fee == Sent(w[k..], amount)
  {
    HopFeeAt(E, src, dst, w, amount, limit, k);
    PayableSuffix(E, src, dst, w, amount, k + 1);
    if k + 1 < |w| {
      HopFeeAt(E, src, dst, w, amount, limit, k + 1);
    }
  }

  lemma HopFeeAt(E: set<ChannelEdge>, src: NodeID, dst: NodeID, w: Walk, amount: int, limit: int, k: nat)
    requires WithinRange(E, amount, limit) && Payable(E, src, dst, w, amount) && k < |w|
    ensures |HopsOf(w, amount)| == |w| && w[k] in E
    ensures
      var h := HopsOf(w, amount)[k];
      && h.channelID == w[k].channelID && h.nodeID == w[k].to && h.cltvDelta == w[k].policy.cltvDelta
      && h.amtToForward == Sent(w[k + 1..], amount)
      && h.fee == HopFee(w[k].policy, h.amtToForward) && 0 <= h.fee
      && EdgePassesFilters(w[k], h.amtToForward + h.fee)
      && h.amtToForward + h.fee == Sent(w[k..], amount)
  {
    HopAt(w, amount, k);
    PayableSuffix(E, src, dst, w, amount, k);
    PayableSuffix(E, src, dst, w, amount, k + 1);
    SentInRange(E, NodeAt(dst, w, k + 1), dst, w[k + 1..], amount, limit);
    assert w[k..][1..] == w[k + 1..];
    IncomingExact(w[k], Sent(w[k + 1..], amount), limit);
    SentInRange(E, NodeAt(dst, w, k), dst, w[k..], amount, limit);
  }

  /** The fees make up the whole difference between what is sent and what arrives. */
  lemma {:induction false} FeesAddUp(E: set<ChannelEdge>, src: NodeID, dst: NodeID, w: Walk, amount: int, limit: int)
    requires WithinRange(E, amount, limit) && Payable(E, src, dst, w, amount)
    ensures amount + TotalFee(HopsOf(w, amount)) == Sent(w, amount)
    decreases w
  {
    if w != [] {
      FeesAddUp(E, w[0].to, dst, w[1..], amount, limit);
      HopFeeAt(E, src, dst, w, amount, limit, 0);
      assert w[0..] == w;
      assert HopsOf(w, amount)[1..] == HopsOf(w[1..], amount);
    }
  }

  /** A tree of payable walks to `dst`, each one edge longer than the walk of the node it leads to. */
  ghost predicate WalkTree(E: set<ChannelEdge>, dst: NodeID, amount: int, best: map<NodeID, Walk>) {
    && dst in best && best[dst] == []
    && (forall x {:trigger Payable(E, x, dst, best[x], amount)} :: x in best ==> Payable(E, x, dst, best[x], amount))
    && (forall x {:trigger Extends(dst, best, x)} :: x in best ==> Extends(dst, best, x))
  }

  /** The walk of `x` is one edge followed by the walk of the node that edge leads to. */
  ghost predicate Extends(dst: NodeID, best: map<NodeID, Walk>, x: NodeID)
    requires x in best
  {
    x == dst || (best[x] != [] && best[x][0].to in best && best[x][1..] == best[best[x][0].to])
  }

  /** No edge into a settled node offers its source anything better than it has. */
  ghost predicate Relaxed(E: set<ChannelEdge>, settled: set<NodeID>, amount: int, best: map<NodeID, Walk>)
    requires settled <= best.Keys
  {
    forall e :: e in E && e.to in settled ==> RelaxedEdge(e, amount, best)
  }

  ghost predicate RelaxedEdge(e: ChannelEdge, amount: int, best: map<NodeID, Walk>)
    requires e.to in best
  {
    var a := Incoming(e, Sent(best[e.to], amount));
    EdgePassesFilters(e, a) ==> e.from in best && Sent(best[e.from], amount) <= a
  }

  /** Every unsettled walk costs at least `bound`. */
  ghost predicate FrontierAtLeast(settled: set<NodeID>, amount: int, best: map<NodeID, Walk>, bound: int) {
    forall x :: x in best && x !in settled ==> bound <= Sent(best[x], amount)
  }

  /** Relaxed labels are least, up to the cost of the frontier. The larger amount a walk may carry
      can only pass more lower bounds, which is where the minimums have to be met. */
  lemma {:induction false} LabelsAreLeast(
    E: set<ChannelEdge>, v: NodeID, dst: NodeID, w: Walk, amount: int, limit: int,
    best: map<NodeID, Walk>, settled: set<NodeID>, bound: int)
    requires WithinRange(E, amount, limit) && MinimumsMet(E, amount)
    requires WalkTree(E, dst, amount, best) && settled <= best.Keys
    requires Relaxed(E, settled, amount, best) && FrontierAtLeast(settled, amount, best, bound)
    requires Payable(E, v, dst, w, amount)
    ensures bound <= Sent(w, amount) || (v in best && Sent(best[v], amount) <= Sent(w, amount))
    decreases w
  {
    if w != [] {
      var e, rest := w[0], w[1..];
      LabelsAreLeast(E, e.to, dst, rest, amount, limit, best, settled, bound);
      SentInRange(E, e.to, dst, rest, amount, limit);
      var a := Sent(rest, amount);
      IncomingMonotone(e, a, a, limit);
      if a < bound {
        var b := Sent(best[e.to], amount);
        assert Payable(E, e.to, dst, best[e.to], amount);
        SentInRange(E, e.to, dst, best[e.to], amount, limit);
        IncomingMonotone(e, b, a, limit);
        assert EdgePassesFilters(e, Incoming(e, b));
        assert RelaxedEdge(e, amount, best);
      }
    }
  }

  /** Every walk leads through a settled node first, and none that is still waiting is cheaper than a
      settled one. */
  ghost predicate InOrder(dst: NodeID, amount: int, best: map<NodeID, Walk>, settled: set<NodeID>)
    requires settled <= best.Keys
  {
    && (forall x {:trigger LeadsTo(dst, best, settled, x)} :: x in best ==> LeadsTo(dst, best, settled, x))
    && (forall s, x :: s in settled && x in best && x !in settled ==> Sent(best[s], amount) <= Sent(best[x], amount))
  }

  ghost predicate LeadsTo(dst: NodeID, best: map<NodeID, Walk>, settled: set<NodeID>, x: NodeID)
    requires x in best
  {
    x == dst || (best[x] != [] && best[x][0].to in settled)
  }

  /** Everything the search has found out, with `cur` the node settled last. */
  ghost predicate Searched(
    E: set<ChannelEdge>, dst: NodeID, amount: int, best: map<NodeID, Walk>, settled: set<NodeID>, cur: NodeID)
  {
    && WalkTree(E, dst, amount, best) && settled <= best.Keys && InOrder(dst, amount, best, settled)
    && cur in settled && forall s :: s in settled ==> Sent(best[s], amount) <= Sent(best[cur], amount)
  }

  /** Relaxing one edge into the node settled last never touches a settled node, so no node is ever
      queued twice, and it spoils no edge relaxed before. */
  lemma RelaxOne(
    E: set<ChannelEdge>, dst: NodeID, amount: int, limit: int,
    best: map<NodeID, Walk>, settled: set<NodeID>, cur: NodeID, e: ChannelEdge)
    requires WithinRange(E, amount, limit) && Searched(E, dst, amount, best, settled, cur)
    requires e in E && e.to == cur
    requires EdgePassesFilters(e, Incoming(e, Sent(best[cur], amount)))
    requires e.from in best ==> Incoming(e, Sent(best[cur], amount)) < Sent(best[e.from], amount)
    ensures e.from !in settled && e.from != dst
    ensures
      var next := best[e.from := [e] + best[cur]];
      && Sent(next[e.from], amount) == Incoming(e, Sent(best[cur], amount)) < INT64_MAX
      && Searched(E, dst, amount, next, settled, cur)
      && RelaxedEdge(e, amount, next)
      && (forall d :: d in E && d.to in settled && RelaxedEdge(d, amount, best) ==> RelaxedEdge(d, amount, next))
  {
    var a := Sent(best[cur], amount);
    assert Payable(E, cur, dst, best[cur], amount);
    SentInRange(E, cur, dst, best[cur], amount, limit);
    IncomingMonotone(e, a, a, limit);
    PassingFits(e, Incoming(e, a), limit);
    var w := [e] + best[cur];
    assert w[1..] == best[cur];
    var next: map<NodeID, Walk> := best[e.from := w];
    assert Payable(E, e.from, dst, w, amount);
    forall x | x in next ensures LeadsTo(dst, next, settled, x) && Extends(dst, next, x) {
      assert x != e.from ==> LeadsTo(dst, best, settled, x) && Extends(dst, best, x);
    }
    forall x | x in next ensures Payable(E, x, dst, next[x], amount) {
      assert x != e.from ==> Payable(E, x, dst, best[x], amount);
    }
  }

  /** No edge into a settled node other than `cur` needs relaxing, and none of `edges` does. */
  ghost predicate RelaxedUpTo(
    E: set<ChannelEdge>, settled: set<NodeID>, amount: int, best: map<NodeID, Walk>, cur: NodeID, edges: seq<ChannelEdge>)
    requires settled <= best.Keys
  {
    && (forall e :: e in E && e.to in settled && e.to != cur ==> RelaxedEdge(e, amount, best))
    && (forall e :: e in edges ==> e in E && e.to in settled && RelaxedEdge(e, amount, best))
  }

  /** Settling a waiting node that no other waiting node is cheaper than. */
  lemma SettleOne(
    E: set<ChannelEdge>, dst: NodeID, amount: int, best: map<NodeID, Walk>, settled: set<NodeID>, cur: NodeID)
    requires WalkTree(E, dst, amount, best) && settled <= best.Keys && InOrder(dst, amount, best, settled)
    requires cur in best && cur !in settled && FrontierAtLeast(settled, amount, best, Sent(best[cur], amount))
    ensures Searched(E, dst, amount, best, settled + {cur}, cur)
  {
    forall x | x in best ensures LeadsTo(dst, best, settled + {cur}, x) {
      assert LeadsTo(dst, best, settled, x);
    }
  }

  /** The state in which the search stops. */
  ghost predicate Finished(
    E: set<ChannelEdge>, src: NodeID, dst: NodeID, amount: int,
    best: map<NodeID, Walk>, settled: set<NodeID>, found: bool)
  {
    && WalkTree(E, dst, amount, best) && settled <= best.Keys
    && Relaxed(E, settled, amount, best)
    && src !in settled
    && (if found then src in best && FrontierAtLeast(settled, amount, best, Sent(best[src], amount))
        else settled == best.Keys)
  }

  /** Stopping with a route means that it is cheapest; stopping without means that there is none. */
  lemma FinishedIsOptimal(
    E: set<ChannelEdge>, src: NodeID, dst: NodeID, amount: int, limit: int,
    best: map<NodeID, Walk>, settled: set<NodeID>, found: bool)
    requires WithinRange(E, amount, limit) && MinimumsMet(E, amount)
    requires Finished(E, src, dst, amount, best, settled, found)
    ensures found ==> Cheapest(E, src, dst, best[src], amount)
    ensures found <==> exists w :: Payable(E, src, dst, w, amount)
  {
    forall w | Payable(E, src, dst, w, amount)
      ensures found && Sent(best[src], amount) <= Sent(w, amount)
    {
      var bound := if found then Sent(best[src], amount) else Sent(w, amount) + 1;
      LabelsAreLeast(E, src, dst, w, amount, limit, best, settled, bound);
    }
    if found {
      assert Payable(E, src, dst, best[src], amount);
    }
  }
}
