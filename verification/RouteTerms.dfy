/** Payment routes in the bare terms of channels and amounts, without the router's own functions: which
    amount enters each channel, and that the channel's policy and capacity allow it. */
module RouteTerms {
  import opened ChannelGraph
  import opened Routes

  /** `entering` goes into the channel and `leaving` comes out of it: the difference is the base fee and
      the proportional fee in millionths, rounded down, and the channel is open for what enters. */
  ghost predicate Carries(e: ChannelEdge, entering: int, leaving: int) {
    && entering == leaving + e.policy.baseFee + leaving * e.policy.feeRatePPM / 1_000_000
    && !e.policy.disabled
    && e.policy.minHTLC <= entering <= e.policy.maxHTLC
    && entering <= e.capacity * 1000
  }

  /** `amounts` are what enters each channel of the walk, and at the end what arrives. */
  ghost predicate CarriesAlong(w: Walk, amounts: seq<int>, amount: int) {
    && |amounts| == |w| + 1 && amounts[|w|] == amount
    && forall k {:trigger w[k]} :: 0 <= k < |w| ==> Carries(w[k], amounts[k], amounts[k + 1])
  }

  /** The channels of the walk lead from one node to the next, from `src` to `dst`. */
  ghost predicate Connects(E: set<ChannelEdge>, src: NodeID, dst: NodeID, w: Walk) {
    && (if w == [] then src == dst else w[0].from == src && w[|w| - 1].to == dst)
    && (forall k {:trigger w[k]} :: 0 <= k < |w| ==> w[k] in E)
    && (forall k {:trigger w[k]} :: 0 < k < |w| ==> w[k].from == w[k - 1].to)
  }

  lemma {:induction false} ConnectsIsWalk(E: set<ChannelEdge>, src: NodeID, dst: NodeID, w: Walk)
    ensures Connects(E, src, dst, w) <==> IsWalk(E, src, dst, w)
    decreases w
  {
    if w != [] {
      ConnectsIsWalk(E, w[0].to, dst, w[1..]);
      var tail := w[1..];
      assert forall k :: 0 <= k < |tail| ==> tail[k] == w[k + 1];
      assert tail != [] ==> w[1] == tail[0] && tail[|tail| - 1] == w[|w| - 1];
      if Connects(E, w[0].to, dst, tail) && w[0] in E && w[0].from == src {
        forall k | 0 < k < |w| ensures w[k] in E && w[k].from == w[k - 1].to {
          assert w[k] == tail[k - 1] && (k > 1 ==> w[k - 1] == tail[k - 2]);
        }
      }
      if Connects(E, src, dst, w) {
        forall k | 0 <= k < |tail| ensures tail[k] in E && tail[k].from == (if k == 0 then w[0].to else tail[k - 1].to) {
          assert tail[k] == w[k + 1] && tail[k].from == w[k].to;
        }
      }
    }
  }

  ghost predicate Delivers(
    E: set<ChannelEdge>, src: NodeID, dst: NodeID, w: Walk, amounts: seq<int>, amount: int)
  {
    Connects(E, src, dst, w) && CarriesAlong(w, amounts, amount)
  }

  ghost predicate HopsTell(w: Walk, amounts: seq<int>, hops: seq<Hop>) {
    && |hops| == |w| && |amounts| == |w| + 1
    && forall k {:trigger w[k]} {:trigger hops[k]} :: 0 <= k < |w| ==>
        hops[k] == Hop(w[k].to, w[k].channelID, amounts[k + 1], amounts[k] - amounts[k + 1], w[k].policy.cltvDelta)
  }

  /** The router's filters and fee, in bare terms. */
  lemma EdgeInTerms(e: ChannelEdge, entering: int, leaving: int, limit: int)
    requires Sane(e, limit) && 0 <= leaving <= limit
    ensures Carries(e, entering, leaving) <==> EdgePassesFilters(e, entering) && entering == Incoming(e, leaving)
  {
    if !e.policy.disabled {
      CapacityIsExact(e.capacity);
      IncomingExact(e, leaving, limit);
    }
  }

  lemma CarriesTail(w: Walk, amounts: seq<int>, amount: int)
    requires w != [] && |amounts| == |w| + 1
    ensures CarriesAlong(w, amounts, amount) <==>
      Carries(w[0], amounts[0], amounts[1]) && CarriesAlong(w[1..], amounts[1..], amount)
  {
    if CarriesAlong(w[1..], amounts[1..], amount) && Carries(w[0], amounts[0], amounts[1]) {
      forall k | 0 <= k < |w| ensures Carries(w[k], amounts[k], amounts[k + 1]) {
        if k > 0 {
          assert w[1..][k - 1] == w[k];
        }
      }
    }
    if CarriesAlong(w, amounts, amount) {
      forall k | 0 <= k < |w[1..]| ensures Carries(w[1..][k], amounts[1..][k], amounts[1..][k + 1]) {
        assert w[1..][k] == w[k + 1];
      }
      assert Carries(w[0], amounts[0], amounts[1]);
    }
  }

  lemma DeliversTail(
    E: set<ChannelEdge>, src: NodeID, dst: NodeID, w: Walk, amounts: seq<int>, amount: int)
    requires w != [] && Delivers(E, src, dst, w, amounts, amount)
    ensures Delivers(E, w[0].to, dst, w[1..], amounts[1..], amount) && Carries(w[0], amounts[0], amounts[1])
    ensures w[0] in E && w[0].from == src
  {
    CarriesTail(w, amounts, amount);
    ConnectsIsWalk(E, src, dst, w);
    ConnectsIsWalk(E, w[0].to, dst, w[1..]);
  }

  /** What enters each channel of a walk, and what arrives. */
  ghost function Amounts(w: Walk, amount: int): (r: seq<int>)
    ensures |r| == |w| + 1 && r[0] == Sent(w, amount)
  {
    if w == [] then [amount] else [Sent(w, amount)] + Amounts(w[1..], amount)
  }

  lemma {:induction false} CarriedIsInRange(
    E: set<ChannelEdge>, src: NodeID, dst: NodeID, w: Walk, amounts: seq<int>, amount: int, limit: int)
    requires WithinRange(E, amount, limit) && Delivers(E, src, dst, w, amounts, amount)
    ensures 0 <= amounts[0] <= limit
    decreases w
  {
    if w != [] {
      DeliversTail(E, src, dst, w, amounts, amount);
      CarriedIsInRange(E, w[0].to, dst, w[1..], amounts[1..], amount, limit);
      EdgeInTerms(w[0], amounts[0], amounts[1], limit);
      IncomingMonotone(w[0], amounts[1], amounts[1], limit);
    }
  }

  /** A walk delivers in bare terms exactly if the router can use it, and then with the router's amounts. */
  lemma {:induction false} PayableInTerms(
    E: set<ChannelEdge>, src: NodeID, dst: NodeID, w: Walk, amount: int, limit: int)
    requires WithinRange(E, amount, limit) && Payable(E, src, dst, w, amount)
    ensures Delivers(E, src, dst, w, Amounts(w, amount), amount)
    decreases w
  {
    ConnectsIsWalk(E, src, dst, w);
    if w != [] {
      PayableInTerms(E, w[0].to, dst, w[1..], amount, limit);
      SentInRange(E, w[0].to, dst, w[1..], amount, limit);
      EdgeInTerms(w[0], Sent(w, amount), Sent(w[1..], amount), limit);
      assert Amounts(w, amount)[1..] == Amounts(w[1..], amount);
      CarriesTail(w, Amounts(w, amount), amount);
    }
  }

  lemma {:induction false} DeliversIsPayable(
    E: set<ChannelEdge>, src: NodeID, dst: NodeID, w: Walk, amounts: seq<int>, amount: int, limit: int)
    requires WithinRange(E, amount, limit) && Delivers(E, src, dst, w, amounts, amount)
    ensures Payable(E, src, dst, w, amount) && amounts[0] == Sent(w, amount)
    decreases w
  {
    ConnectsIsWalk(E, src, dst, w);
    if w != [] {
      DeliversTail(E, src, dst, w, amounts, amount);
      DeliversIsPayable(E, w[0].to, dst, w[1..], amounts[1..], amount, limit);
      CarriedIsInRange(E, w[0].to, dst, w[1..], amounts[1..], amount, limit);
      EdgeInTerms(w[0], amounts[0], amounts[1], limit);
    }
  }

  lemma {:induction false} HopsInTerms(
    E: set<ChannelEdge>, src: NodeID, dst: NodeID, w: Walk, amount: int, limit: int)
    requires WithinRange(E, amount, limit) && Payable(E, src, dst, w, amount)
    ensures HopsTell(w, Amounts(w, amount), HopsOf(w, amount))
    decreases w
  {
    if w != [] {
      HopsInTerms(E, w[0].to, dst, w[1..], amount, limit);
      SentInRange(E, src, dst, w, amount, limit);
      SentInRange(E, w[0].to, dst, w[1..], amount, limit);
      var hops, amounts, rest := HopsOf(w, amount), Amounts(w, amount), Amounts(w[1..], amount);
      forall k | 0 <= k < |w|
        ensures hops[k] == Hop(w[k].to, w[k].channelID, amounts[k + 1], amounts[k] - amounts[k + 1], w[k].policy.cltvDelta)
      {
        if k > 0 {
          assert w[1..][k - 1] == w[k] && hops[k] == HopsOf(w[1..], amount)[k - 1];
          assert amounts[k] == rest[k - 1] && amounts[k + 1] == rest[k];
        }
      }
    }
  }

  /** A route that sends no more than anything else that delivers. */
  ghost predicate LeastRoute(
    E: set<ChannelEdge>, src: NodeID, dst: NodeID, amount: int, hops: seq<Hop>, w: Walk, amounts: seq<int>)
  {
    && Delivers(E, src, dst, w, amounts, amount) && HopsTell(w, amounts, hops)
    && forall v, other :: Delivers(E, src, dst, v, other, amount) ==> amounts[0] <= other[0]
  }

  lemma RouteInTerms(E: set<ChannelEdge>, src: NodeID, dst: NodeID, w: Walk, amount: int, limit: int)
    requires WithinRange(E, amount, limit) && Payable(E, src, dst, w, amount)
    ensures Delivers(E, src, dst, w, Amounts(w, amount), amount)
    ensures HopsTell(w, Amounts(w, amount), HopsOf(w, amount))
    ensures Cheapest(E, src, dst, w, amount) ==>
      LeastRoute(E, src, dst, amount, HopsOf(w, amount), w, Amounts(w, amount))
  {
    PayableInTerms(E, src, dst, w, amount, limit);
    HopsInTerms(E, src, dst, w, amount, limit);
    if Cheapest(E, src, dst, w, amount) {
      forall v, other | Delivers(E, src, dst, v, other, amount) ensures Sent(w, amount) <= other[0] {
        DeliversIsPayable(E, src, dst, v, other, amount, limit);
      }
    }
  }

  lemma NoRouteInTerms(E: set<ChannelEdge>, src: NodeID, dst: NodeID, amount: int, limit: int)
    requires WithinRange(E, amount, limit)
    ensures (exists w :: Payable(E, src, dst, w, amount)) <==> exists w, amounts :: Delivers(E, src, dst, w, amounts, amount)
  {
    if w :| Payable(E, src, dst, w, amount) {
      PayableInTerms(E, src, dst, w, amount, limit);
    }
    if w, amounts :| Delivers(E, src, dst, w, amounts, amount) {
      DeliversIsPayable(E, src, dst, w, amounts, amount, limit);
    }
  }
}
