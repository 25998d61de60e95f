/** Channels, fees and filters of the payment network, with the machine arithmetic of the Go code:
    every int64 operation wraps, and the timelock sum wraps at 32 bits. */
module ChannelGraph {

  const INT64_MAX: int := 0x7fff_ffff_ffff_ffff
  const PPM: int := 1_000_000

  function Wrap64(x: int): (r: int)
    ensures -INT64_MAX - 1 <= r <= INT64_MAX
    ensures -INT64_MAX - 1 <= x <= INT64_MAX ==> r == x
  {
    (x + INT64_MAX + 1) % 0x1_0000_0000_0000_0000 - INT64_MAX - 1
  }

  function Wrap32(x: int): (r: int)
    ensures 0 <= r < 0x1_0000_0000
  {
    x % 0x1_0000_0000
  }

  /** Division truncating toward zero. */
  function Quotient(a: int, b: int): int
    requires b > 0
  {
    if a >= 0 then a / b else -(-a / b)
  }

  /** A 33-byte compressed public key; only its equality matters. */
  datatype NodeID = NodeID(bytes: seq<int>)

  datatype ChannelPolicy = ChannelPolicy(
    baseFee: int, feeRatePPM: int, cltvDelta: int, disabled: bool, minHTLC: int, maxHTLC: int)

  datatype ChannelEdge = ChannelEdge(
    channelID: int, from: NodeID, to: NodeID, capacity: int, policy: ChannelPolicy)

  function HopFee(policy: ChannelPolicy, amountMsat: int): int {
    Wrap64(policy.baseFee + Quotient(Wrap64(amountMsat * policy.feeRatePPM), PPM))
  }

  predicate EdgePassesFilters(edge: ChannelEdge, amountMsat: int) {
    && !edge.policy.disabled
    && !(amountMsat < edge.policy.minHTLC)
    && !(amountMsat > edge.policy.maxHTLC)
    && !(amountMsat > Wrap64(edge.capacity * 1000))
  }

  /** What has to arrive at `edge.from` for `amount` to arrive at `edge.to`. */
  function Incoming(edge: ChannelEdge, amount: int): int {
    Wrap64(amount + HopFee(edge.policy, amount))
  }

  /** An enabled edge has non-negative fees, a capacity that fits `limit` msat, and an int64 has room
      for the fee of any amount up to `limit`. */
  predicate Sane(edge: ChannelEdge, limit: int) {
    !edge.policy.disabled ==>
      && 0 <= edge.policy.baseFee
      && 0 <= edge.policy.feeRatePPM
      && -INT64_MAX - 1 <= edge.capacity * 1000 <= limit
      && limit * edge.policy.feeRatePPM <= INT64_MAX
      && limit + edge.policy.baseFee + limit * edge.policy.feeRatePPM / PPM <= INT64_MAX
  }

  lemma ProductMonotone(a: int, b: int, c: int)
    requires a <= b && 0 <= c
    ensures a * c <= b * c
  {
  }

  lemma QuotientMonotone(a: int, b: int, c: int)
    requires a <= b && 0 < c
    ensures a / c <= b / c
  {
    assert a < (b / c + 1) * c;
    if b / c + 1 <= a / c {
      ProductMonotone(b / c + 1, a / c, c);
    }
  }

  /** Within the limit no operation wraps: the fee is the base fee plus the proportional part. */
  lemma IncomingExact(edge: ChannelEdge, a: int, limit: int)
    requires Sane(edge, limit) && !edge.policy.disabled && 0 <= a <= limit
    ensures HopFee(edge.policy, a) == edge.policy.baseFee + a * edge.policy.feeRatePPM / 1_000_000
    ensures 0 <= HopFee(edge.policy, a)
    ensures Incoming(edge, a) == a + HopFee(edge.policy, a)
  {
    var ppm := edge.policy.feeRatePPM;
    ProductMonotone(a, limit, ppm);
    ProductMonotone(0, a, ppm);
    QuotientMonotone(a * ppm, limit * ppm, PPM);
    QuotientMonotone(0, a * ppm, PPM);
  }

  /** An enabled edge never shrinks an amount, and needs no less for a larger one. */
  lemma IncomingMonotone(edge: ChannelEdge, a: int, b: int, limit: int)
    requires Sane(edge, limit) && !edge.policy.disabled && 0 <= a <= b <= limit
    ensures a <= Incoming(edge, a) <= Incoming(edge, b)
  {
    var ppm := edge.policy.feeRatePPM;
    IncomingExact(edge, a, limit);
    IncomingExact(edge, b, limit);
    ProductMonotone(a, b, ppm);
    QuotientMonotone(a * ppm, b * ppm, PPM);
  }

  /** An amount that passes the filters fits the limit and is not the "no path yet" mark. */
  lemma PassingFits(edge: ChannelEdge, a: int, limit: int)
    requires Sane(edge, limit) && EdgePassesFilters(edge, a)
    ensures a <= limit && a < INT64_MAX
  {
    CapacityIsExact(edge.capacity);
  }

  lemma CapacityIsExact(capacity: int)
    ensures -INT64_MAX - 1 <= capacity * 1000 <= INT64_MAX ==> Wrap64(capacity * 1000) == capacity * 1000
    ensures capacity * 1000 != INT64_MAX
  {
  }

  /** The channel network as an adjacency list. */
  class Graph {
    var nodes: set<NodeID>
    var edges: map<NodeID, seq<ChannelEdge>>

    /** Every edge is listed under its own source and has both ends among the nodes. */
    ghost predicate Valid()
      reads this
    {
      forall n, e :: n in edges && e in edges[n] ==> e.from == n && e.from in nodes && e.to in nodes
    }

    ghost function AllEdges(): (r: set<ChannelEdge>)
      reads this
      ensures forall e :: e in r <==> exists n :: n in edges && e in edges[n]
    {
      set n, e | n in edges && e in edges[n] :: e
    }

    constructor ()
      ensures Valid() && AllEdges() == {} && nodes == {}
    {
      nodes := {};
      edges := map[];
    }

    method AddEdge(edge: ChannelEdge)
      requires Valid()
      modifies this
      ensures Valid()
      ensures AllEdges() == old(AllEdges()) + {edge}
      ensures nodes == old(nodes) + {edge.from, edge.to}
    {
      nodes := nodes + {edge.from};
      nodes := nodes + {edge.to};
      var was := if edge.from in edges then edges[edge.from] else [];
      edges := edges[edge.from := was + [edge]];
      assert edge in edges[edge.from];
      forall e | e in old(AllEdges()) ensures e in AllEdges() {
        var n :| n in old(edges) && e in old(edges)[n];
        assert n in edges && e in edges[n];
      }
    }
  }
}
