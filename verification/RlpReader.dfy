/** The streaming reader: strings and lists are taken off a byte source, and a list is read through a
    reader limited to its payload. Readers of nested lists share the source and every outer limit. */
module RlpReader {
  import opened BigEndian
  import opened Rlp

  /** How much each enclosing list still allows, innermost first. */
  datatype Limits = Unlimited | Within(allowed: int, outer: Limits)

  /** What a reader sees: a byte source read up to `pos`, behind its limits. */
  datatype Stream = Stream(data: seq<Byte>, pos: nat, limits: Limits)

  /** How many of `n` unread bytes the limits let through. */
  function Granted(n: nat, limits: Limits): (r: nat)
    ensures r <= n
  {
    match limits
    case Unlimited => n
    case Within(allowed, outer) => Granted(if allowed < 0 then 0 else if allowed < n then allowed else n, outer)
  }

  function Available(s: Stream): nat
    requires s.pos <= |s.data|
  {
    Granted(|s.data| - s.pos, s.limits)
  }

  function Lowered(limits: Limits, k: nat): Limits {
    match limits
    case Unlimited => Unlimited
    case Within(allowed, outer) => Within(allowed - k, Lowered(outer, k))
  }

  function Advance(s: Stream, k: nat): Stream { Stream(s.data, s.pos + k, Lowered(s.limits, k)) }

  function Opened(s: Stream, limit: int): Stream { Stream(s.data, s.pos, Within(limit, s.limits)) }

  /** Back in the reader that handed out the list: the innermost limit is forgotten. */
  function Outer(s: Stream): Stream
    requires s.limits.Within?
  {
    Stream(s.data, s.pos, s.limits.outer)
  }

  /** `MakePanics` is not an error the Go code returns: making a buffer of negative length panics. */
  datatype ReadError = EOF | UnexpectedEOF | WantedString | WantedList | MakePanics

  datatype ReadResult = Got(bytes: seq<Byte>, stream: Stream) | Refused(error: ReadError, stream: Stream)

  /** Fills a buffer of `k` bytes, or takes what there is and fails. */
  function FullRead(s: Stream, k: nat): (r: ReadResult)
    requires s.pos <= |s.data|
    ensures r.Got? ==> |r.bytes| == k
    ensures r.stream.data == s.data && s.pos <= r.stream.pos <= |s.data|
  {
    var n := Available(s);
    if k <= n then Got(s.data[s.pos..s.pos + k], Advance(s, k))
    else Refused(if n == 0 then EOF else UnexpectedEOF, Advance(s, n))
  }

  /** A length field as an int: eight bytes may spell a negative one. */
  function Length(bytes: seq<Byte>): int {
    if Value(bytes) < INT_LIMIT then Value(bytes) else Value(bytes) - TWO64
  }

  function StringRead(s: Stream): (r: ReadResult)
    requires s.pos <= |s.data|
    ensures r.stream.data == s.data && s.pos <= r.stream.pos <= |s.data|
  {
    match FullRead(s, 1)
    case Refused(e, t) => Refused(e, t)
    case Got(prefix, t) => StringAfter(prefix[0], t)
  }

  function StringAfter(key: Byte, t: Stream): (r: ReadResult)
    requires t.pos <= |t.data|
    ensures r.stream.data == t.data && t.pos <= r.stream.pos <= |t.data|
  {
    if key <= 0x7f then Got([key], t)
    else if key == 0x80 then Got([], t)
    else if key <= 0xb7 then FullRead(t, key - 0x80)
    else if key <= 0xbf then LongString(key - 0xb7, t)
    else Refused(WantedString, t)
  }

  /** A string behind a length field of `k` bytes. */
  function LongString(k: nat, t: Stream): (r: ReadResult)
    requires t.pos <= |t.data|
    ensures r.stream.data == t.data && t.pos <= r.stream.pos <= |t.data|
  {
    match FullRead(t, k)
    case Refused(e, u) => Refused(e, u)
    case Got(lenBytes, u) => if Length(lenBytes) < 0 then Refused(MakePanics, u) else FullRead(u, Length(lenBytes))
  }

  /** On success the stream is the one the list's own reader sees. */
  function ListRead(s: Stream): (r: ReadResult)
    requires s.pos <= |s.data|
    ensures r.stream.data == s.data && s.pos <= r.stream.pos <= |s.data|
  {
    match FullRead(s, 1)
    case Refused(e, t) => Refused(e, t)
    case Got(prefix, t) => ListAfter(prefix[0], t)
  }

  function ListAfter(key: Byte, t: Stream): (r: ReadResult)
    requires t.pos <= |t.data|
    ensures r.stream.data == t.data && t.pos <= r.stream.pos <= |t.data|
  {
    if key < 0xc0 then Refused(WantedList, t)
    else if key <= 0xf7 then Got([], Opened(t, key - 0xc0))
    else
      match FullRead(t, key - 0xf7)
      case Refused(e, u) => Refused(e, u)
      case Got(lenBytes, u) => Got([], Opened(u, Length(lenBytes)))
  }

  /** The strings of a tree in order. */
  function Strings(t: Tree): seq<seq<Byte>>
    decreases t, 1
  {
    match t
    case Str(data) => [data]
    case Lst(items) => StringsOf(items)
  }

  function StringsOf(items: seq<Tree>): seq<seq<Byte>>
    decreases items, 0
  {
    if items == [] then [] else Strings(items[0]) + StringsOf(items[1..])
  }

  datatype DriveResult = Finished(strings: seq<seq<Byte>>, stream: Stream) | Stopped(error: ReadError)

  /** A client that knows the shape of what is coming: reads a string where it expects one, and opens
      a list and reads its items where it expects a list. */
  function Drive(t: Tree, s: Stream): (r: DriveResult)
    requires s.pos <= |s.data|
    ensures r.Finished? ==> r.stream.data == s.data && s.pos <= r.stream.pos <= |s.data|
    decreases t, 1
  {
    match t
    case Str(_) =>
      (match StringRead(s)
       case Refused(e, _) => Stopped(e)
       case Got(bytes, u) => Finished([bytes], u))
    case Lst(items) =>
      match ListRead(s)
      case Refused(e, _) => Stopped(e)
      case Got(_, u) =>
        match DriveAll(items, u)
        case Stopped(e) => Stopped(e)
        case Finished(strings, v) => Finished(strings, if v.limits.Unlimited? then v else Outer(v))
  }

  function DriveAll(items: seq<Tree>, s: Stream): (r: DriveResult)
    requires s.pos <= |s.data|
    ensures r.Finished? ==> r.stream.data == s.data && s.pos <= r.stream.pos <= |s.data|
    decreases items, 0
  {
    if items == [] then Finished([], s)
    else
      match Drive(items[0], s)
      case Stopped(e) => Stopped(e)
      case Finished(strings, u) =>
        match DriveAll(items[1..], u)
        case Stopped(e) => Stopped(e)
        case Finished(more, v) => Finished(strings + more, v)
  }

  ghost predicate Allows(limits: Limits, k: nat) {
    match limits
    case Unlimited => true
    case Within(allowed, outer) => k <= allowed && Allows(outer, k)
  }

  /** `code` comes next, and no limit cuts it off. */
  ghost predicate Ready(s: Stream, code: seq<Byte>) {
    Holds(s.data, s.pos, code) && Allows(s.limits, |code|)
  }

  lemma {:induction false} AllowsPart(limits: Limits, j: nat, k: nat)
    requires Allows(limits, j + k)
    ensures Allows(limits, j) && Allows(Lowered(limits, j), k)
  {
    if limits.Within? {
      AllowsPart(limits.outer, j, k);
    }
  }

  lemma {:induction false} AllowsEnough(n: nat, limits: Limits, k: nat)
    requires k <= n && Allows(limits, k)
    ensures k <= Granted(n, limits)
  {
    if limits.Within? {
      AllowsEnough(if limits.allowed < n then limits.allowed else n, limits.outer, k);
    }
  }

  lemma {:induction false} LoweredTwice(limits: Limits, j: nat, k: nat)
    ensures Lowered(Lowered(limits, j), k) == Lowered(limits, j + k)
  {
    if limits.Within? {
      LoweredTwice(limits.outer, j, k);
    }
  }

  lemma {:induction false} LoweredByNothing(limits: Limits)
    ensures Lowered(limits, 0) == limits
  {
    if limits.Within? {
      LoweredByNothing(limits.outer);
    }
  }

  lemma AdvanceTwice(s: Stream, j: nat, k: nat)
    ensures Advance(Advance(s, j), k) == Advance(s, j + k)
  {
    LoweredTwice(s.limits, j, k);
  }

  /** A full read takes the front of what is ready. */
  lemma FullReads(s: Stream, a: seq<Byte>, b: seq<Byte>)
    requires Ready(s, a + b)
    ensures FullRead(s, |a|) == Got(a, Advance(s, |a|)) && Ready(s, a) && Ready(Advance(s, |a|), b)
  {
    HoldsSplit(s.data, s.pos, a, b);
    AllowsPart(s.limits, |a|, |b|);
    AllowsEnough(|s.data| - s.pos, s.limits, |a|);
  }

  lemma SplitReady(s: Stream, a: seq<Byte>, b: seq<Byte>)
    requires Ready(s, a + b)
    ensures Ready(s, a) && Ready(Advance(s, |a|), b) && Advance(Advance(s, |a|), |b|) == Advance(s, |a + b|)
  {
    FullReads(s, a, b);
    AdvanceTwice(s, |a|, |b|);
  }

  lemma TwoReads(s: Stream, a: seq<Byte>, m: seq<Byte>, b: seq<Byte>)
    requires Ready(s, a + m + b)
    ensures FullRead(s, |a|) == Got(a, Advance(s, |a|))
    ensures s.pos + |a| <= |s.data| && FullRead(Advance(s, |a|), |m|) == Got(m, Advance(s, |a| + |m|))
    ensures Ready(Advance(s, |a| + |m|), b)
  {
    assert a + m + b == a + (m + b);
    FullReads(s, a, m + b);
    FullReads(Advance(s, |a|), m, b);
    AdvanceTwice(s, |a|, |m|);
  }

  lemma FullReadsAll(s: Stream, a: seq<Byte>)
    requires Ready(s, a)
    ensures FullRead(s, |a|) == Got(a, Advance(s, |a|))
  {
    assert a + [] == a;
    FullReads(s, a, []);
  }

  lemma ShortHeader(s: Stream, short: Byte, len: nat, b: seq<Byte>)
    requires (short == 0x80 || short == 0xc0) && len <= 55 && Ready(s, Header(short, len) + b)
    ensures FullRead(s, 1) == Got([short + len], Advance(s, 1)) && Ready(Advance(s, 1), b)
  {
    FullReads(s, [short + len], b);
  }

  lemma HeaderParts(short: Byte, len: nat)
    requires (short == 0x80 || short == 0xc0) && 55 < len < INT_LIMIT
    ensures 1 <= |Minimal(len)| <= 8 && Length(Minimal(len)) == len
    ensures Header(short, len) == [short + 55 + |Minimal(len)|] + Minimal(len)
  {
    MinimalLength(len);
    MinimalRoundTrip(len);
  }

  lemma ShortDispatch(s: Stream, key: Byte, t: Stream)
    requires s.pos <= |s.data| && FullRead(s, 1) == Got([key], t) && 0x80 < key <= 0xb7
    ensures StringRead(s) == FullRead(t, key - 0x80)
  {
  }

  lemma LongDispatch(s: Stream, key: Byte, t: Stream, lenBytes: seq<Byte>, u: Stream)
    requires s.pos <= |s.data| && FullRead(s, 1) == Got([key], t) && 0xb7 < key <= 0xbf
    requires FullRead(t, key - 0xb7) == Got(lenBytes, u) && Length(lenBytes) >= 0
    ensures StringRead(s) == FullRead(u, Length(lenBytes))
  {
  }

  lemma ShortHeadedString(s: Stream, len: nat, b: seq<Byte>)
    requires 1 <= len <= 55 && Ready(s, Header(0x80, len) + b)
    ensures Ready(Advance(s, 1), b) && StringRead(s) == FullRead(Advance(s, 1), len)
  {
    ShortHeader(s, 0x80, len, b);
    ShortDispatch(s, 0x80 + len, Advance(s, 1));
  }

  lemma LongHeadedString(s: Stream, len: nat, b: seq<Byte>)
    requires 55 < len < INT_LIMIT && Ready(s, Header(0x80, len) + b)
    ensures
      var n := |Minimal(len)|;
      && |Header(0x80, len)| == 1 + n && s.pos + 1 + n <= |s.data|
      && Ready(Advance(s, 1 + n), b) && StringRead(s) == FullRead(Advance(s, 1 + n), len)
  {
    HeaderParts(0x80, len);
    LengthField(s, Minimal(len), len, b);
  }

  /** The length field of a long string is read first and then as many bytes as it says. */
  lemma LengthField(s: Stream, m: seq<Byte>, len: nat, b: seq<Byte>)
    requires 1 <= |m| <= 8 && Length(m) == len && Ready(s, [0xb7 + |m|] + m + b)
    ensures s.pos + 1 + |m| <= |s.data|
    ensures Ready(Advance(s, 1 + |m|), b) && StringRead(s) == FullRead(Advance(s, 1 + |m|), len)
  {
    TwoReads(s, [0xb7 + |m|], m, b);
    LongDispatch(s, 0xb7 + |m|, Advance(s, 1), m, Advance(s, 1 + |m|));
  }

  /** A string with a header: the header is followed by a full read of the content. */
  lemma HeadedString(s: Stream, len: nat, b: seq<Byte>)
    requires 1 <= len < INT_LIMIT && Ready(s, Header(0x80, len) + b)
    ensures
      var t := Advance(s, |Header(0x80, len)|);
      Ready(t, b) && StringRead(s) == FullRead(t, len)
  {
    if len <= 55 {
      ShortHeadedString(s, len, b);
    } else {
      LongHeadedString(s, len, b);
    }
  }

  lemma HeadedStringIsRead(s: Stream, data: seq<Byte>)
    requires 1 <= |data| < INT_LIMIT && Ready(s, Header(0x80, |data|) + data)
    ensures StringRead(s) == Got(data, Advance(s, |Header(0x80, |data|) + data|))
  {
    var head := |Header(0x80, |data|)|;
    HeadedString(s, |data|, data);
    FullReadsAll(Advance(s, head), data);
    AdvanceTwice(s, head, |data|);
  }

  lemma StringIsRead(s: Stream, data: seq<Byte>)
    requires |data| < INT_LIMIT && Ready(s, EncodedString(data))
    ensures StringRead(s) == Got(data, Advance(s, |EncodedString(data)|))
  {
    if |data| == 1 && data[0] <= 0x7f {
      FullReadsAll(s, data);
    } else if data == [] {
      ShortHeader(s, 0x80, 0, data);
    } else {
      HeadedStringIsRead(s, data);
    }
  }

  lemma ListDispatch(s: Stream, key: Byte, t: Stream, lenBytes: seq<Byte>, u: Stream)
    requires s.pos <= |s.data| && FullRead(s, 1) == Got([key], t) && 0xf7 < key
    requires FullRead(t, key - 0xf7) == Got(lenBytes, u)
    ensures ListRead(s) == Got([], Opened(u, Length(lenBytes)))
  {
  }

  lemma ListField(s: Stream, m: seq<Byte>, len: nat, b: seq<Byte>)
    requires 1 <= |m| <= 8 && Length(m) == len && Ready(s, [0xf7 + |m|] + m + b)
    ensures Ready(Advance(s, 1 + |m|), b) && ListRead(s) == Got([], Opened(Advance(s, 1 + |m|), len))
  {
    TwoReads(s, [0xf7 + |m|], m, b);
    ListDispatch(s, 0xf7 + |m|, Advance(s, 1), m, Advance(s, 1 + |m|));
  }

  lemma ListIsOpened(s: Stream, payload: seq<Byte>)
    requires |payload| < INT_LIMIT && Ready(s, Header(0xc0, |payload|) + payload)
    ensures
      var inner := Opened(Advance(s, |Header(0xc0, |payload|)|), |payload|);
      ListRead(s) == Got([], inner) && Ready(inner, payload)
  {
    if |payload| <= 55 {
      ShortHeader(s, 0xc0, |payload|, payload);
    } else {
      HeaderParts(0xc0, |payload|);
      ListField(s, Minimal(|payload|), |payload|, payload);
    }
  }

  /** A list whose reader is read to its end, which uses up its limit. */
  lemma DriveList(items: seq<Tree>, s: Stream, payload: seq<Byte>, strings: seq<seq<Byte>>)
    requires |payload| < INT_LIMIT && Ready(s, Header(0xc0, |payload|) + payload)
    requires
      var inner := Opened(Advance(s, |Header(0xc0, |payload|)|), |payload|);
      inner.pos <= |inner.data| && DriveAll(items, inner) == Finished(strings, Advance(inner, |payload|))
    ensures Drive(Lst(items), s) == Finished(strings, Advance(s, |Header(0xc0, |payload|) + payload|))
  {
    ListIsOpened(s, payload);
    DriveOpened(items, s, payload, strings, |Header(0xc0, |payload|)|);
  }

  lemma DrivesInside(shapes: seq<Tree>, s: Stream, inner: Stream)
    requires s.pos <= |s.data| && inner.pos <= |inner.data| && ListRead(s) == Got([], inner)
    ensures Drive(Lst(shapes), s) ==
      match DriveAll(shapes, inner)
      case Stopped(e) => Stopped(e)
      case Finished(strings, v) => Finished(strings, if v.limits.Unlimited? then v else Outer(v))
  {
  }

  lemma DriveOpened(items: seq<Tree>, s: Stream, payload: seq<Byte>, strings: seq<seq<Byte>>, head: nat)
    requires s.pos + head + |payload| <= |s.data| < INT_LIMIT
    requires ListRead(s) == Got([], Opened(Advance(s, head), |payload|))
    requires
      var inner := Opened(Advance(s, head), |payload|);
      DriveAll(items, inner) == Finished(strings, Advance(inner, |payload|))
    ensures Drive(Lst(items), s) == Finished(strings, Advance(s, head + |payload|))
  {
    var inner := Opened(Advance(s, head), |payload|);
    DrivesInside(items, s, inner);
    AdvanceTwice(s, head, |payload|);
    assert Outer(Advance(inner, |payload|)) == Advance(Advance(s, head), |payload|);
  }

  /** Reading by the shape of an encoded item returns its strings in order and takes exactly the
      encoding off the source and off every enclosing limit. */
  lemma {:induction false} ReadsItem(x: Item, s: Stream)
    requires Supported(x) && Ready(s, Encoded(x))
    ensures Drive(Canon(x), s) == Finished(Strings(Canon(x)), Advance(s, |Encoded(x)|))
    decreases x, 1
  {
    if x.List? {
      var payload := EncodedAll(x.items);
      assert Encoded(x) == Header(0xc0, |payload|) + payload;
      ListIsOpened(s, payload);
      ReadsItems(x.items, Opened(Advance(s, |Header(0xc0, |payload|)|), |payload|));
      DriveList(CanonAll(x.items), s, payload, StringsOf(CanonAll(x.items)));
    } else {
      StringItem(x);
      StringIsRead(s, Canon(x).data);
    }
  }

  lemma {:induction false} ReadsItems(items: seq<Item>, s: Stream)
    requires (forall i :: 0 <= i < |items| ==> Supported(items[i])) && Ready(s, EncodedAll(items))
    ensures DriveAll(CanonAll(items), s) == Finished(StringsOf(CanonAll(items)), Advance(s, |EncodedAll(items)|))
    decreases items, 0
  {
    if items == [] {
      LoweredByNothing(s.limits);
    } else {
      SplitItems(items, s);
      var next := Advance(s, |Encoded(items[0])|);
      ReadsItem(items[0], s);
      ReadsItems(items[1..], next);
      DriveStep(items, s, next, Advance(s, |EncodedAll(items)|));
    }
  }

  lemma SplitItems(items: seq<Item>, s: Stream)
    requires items != [] && Ready(s, EncodedAll(items))
    ensures
      var (first, rest) := (Encoded(items[0]), EncodedAll(items[1..]));
      && Ready(s, first) && Ready(Advance(s, |first|), rest)
      && Advance(Advance(s, |first|), |rest|) == Advance(s, |EncodedAll(items)|)
  {
    SplitReady(s, Encoded(items[0]), EncodedAll(items[1..]));
  }

  lemma DriveStep(items: seq<Item>, s: Stream, t: Stream, u: Stream)
    requires items != [] && items[0] != Other && s.pos <= |s.data| && t.pos <= |t.data|
    requires Drive(Canon(items[0]), s) == Finished(Strings(Canon(items[0])), t)
    requires DriveAll(CanonAll(items[1..]), t) == Finished(StringsOf(CanonAll(items[1..])), u)
    ensures DriveAll(CanonAll(items), s) == Finished(StringsOf(CanonAll(items)), u)
  {
    var trees := CanonAll(items);
    assert trees[0] == Canon(items[0]) && trees[1..] == CanonAll(items[1..]);
  }

  /** The strings in an answer of the decoder. */
  function Leaves(d: Decoded): seq<seq<Byte>>
    decreases d, 1
  {
    match d
    case EmptyText => [[]]
    case Single(b) => [[b]]
    case Slice(data) => if data == [] then [] else [data]
    case Sequence(items) => LeavesOf(items)
  }

  function LeavesOf(items: seq<Decoded>): seq<seq<Byte>>
    decreases items, 0
  {
    if items == [] then [] else Leaves(items[0]) + LeavesOf(items[1..])
  }

  lemma {:induction false} LeavesAreStrings(t: Tree)
    ensures Leaves(Norm(t)) == Strings(t)
    decreases t, 1
  {
    match t
    case Str(data) =>
      if |data| == 1 {
        assert data == [data[0]];
      }
    case Lst(items) =>
      LeavesOfAreStrings(items);
  }

  lemma {:induction false} LeavesOfAreStrings(items: seq<Tree>)
    ensures LeavesOf(NormAll(items)) == StringsOf(items)
    decreases items, 0
  {
    if items != [] {
      LeavesAreStrings(items[0]);
      LeavesOfAreStrings(items[1..]);
      assert NormAll(items)[1..] == NormAll(items[1..]);
    }
  }

  /** The stream reader and the decoder agree on every encoding, wherever it stands: the strings read
      are the leaves of the decoded value, and as many bytes are taken as the decoder reports. */
  lemma ReaderAgreesWithDecoder(x: Item, s: Stream)
    requires Supported(x) && Ready(s, Encoded(x))
    ensures
      var decoded := DecodeItem(s.data, s.pos);
      && decoded.Done? && decoded.value == Norm(Canon(x))
      && Drive(Canon(x), s) == Finished(Leaves(decoded.value), Advance(s, decoded.consumed))
  {
    RoundTrip(s.data, s.pos, x);
    ReadsItem(x, s);
    LeavesAreStrings(Canon(x));
  }

  /** A source of bytes with a read position. */
  class ByteSource {
    const data: seq<Byte>
    var pos: nat

    constructor (data: seq<Byte>)
      ensures this.data == data && pos == 0
    {
      this.data := data;
      pos := 0;
    }
  }

  /** The remaining allowance of one limited reader. */
  class Allowance {
    var n: int

    constructor (n: int)
      ensures this.n == n
    {
      this.n := n;
    }
  }

  /** The limited readers a reader is stacked on, outermost list first. */
  type Chain = seq<Allowance>

  ghost predicate Separate(c: Chain) {
    forall i, j :: 0 <= i < j < |c| ==> c[i] != c[j]
  }

  ghost function LimitsOf(c: Chain): Limits
    reads c
  {
    if c == [] then Unlimited else Within(c[|c| - 1].n, LimitsOf(c[..|c| - 1]))
  }

  method Grant(n: nat, c: Chain) returns (r: nat)
    ensures r == Granted(n, LimitsOf(c))
  {
    if c == [] {
      return n;
    }
    var allowed := c[|c| - 1].n;
    r := Grant(if allowed < 0 then 0 else if allowed < n then allowed else n, c[..|c| - 1]);
  }

  method Charge(c: Chain, k: nat)
    requires Separate(c)
    modifies c
    ensures LimitsOf(c) == Lowered(old(LimitsOf(c)), k)
  {
    if c != [] {
      var cell, under := c[|c| - 1], c[..|c| - 1];
      Charge(under, k);
      assert cell !in under;
      ghost var outer := LimitsOf(under);
      cell.n := cell.n - k;
      assert LimitsOf(under) == outer;
    }
  }

  datatype Answer<T> = Ok(value: T) | Err(error: ReadError)

  class RLPReader {
    const source: ByteSource
    const chain: Chain

    constructor (source: ByteSource, chain: Chain)
      ensures this.source == source && this.chain == chain
    {
      this.source := source;
      this.chain := chain;
    }

    ghost predicate Valid()
      reads source
    {
      Separate(chain) && source.pos <= |source.data|
    }

    ghost function State(): Stream
      reads source, chain
    {
      Stream(source.data, source.pos, LimitsOf(chain))
    }

    method ReadFull(k: nat) returns (r: Answer<seq<Byte>>)
      requires Valid()
      modifies source, chain
      ensures Valid() && State() == FullRead(old(State()), k).stream
      ensures match FullRead(old(State()), k) case Got(bytes, _) => r == Ok(bytes) case Refused(e, _) => r == Err(e)
    {
      ghost var before := State();
      var n := Grant(|source.data| - source.pos, chain);
      assert State() == before;
      if k <= n {
        r := Ok(source.data[source.pos..source.pos + k]);
        n := k;
      } else {
        r := Err(if n == 0 then EOF else UnexpectedEOF);
      }
      source.pos := source.pos + n;
      assert LimitsOf(chain) == before.limits;
      Charge(chain, n);
      assert State() == Advance(before, n);
    }

    /** A big-endian length field of up to eight bytes. */
    method ReadLength(k: nat) returns (r: Answer<int>)
      requires Valid() && k <= 8
      modifies source, chain
      ensures Valid() && State() == FullRead(old(State()), k).stream
      ensures match FullRead(old(State()), k) case Got(bytes, _) => r == Ok(Length(bytes)) case Refused(e, _) => r == Err(e)
    {
      var lenBytes := ReadFull(k);
      if lenBytes.Err? {
        return Err(lenBytes.error);
      }
      ghost var t := State();
      var n := DecodeBigEndian(lenBytes.value);
      assert State() == t;
      r := Ok(n);
    }

    /** A reader for the next `n` bytes, stacked on this one. */
    method Limit(n: int) returns (r: RLPReader)
      requires Valid()
      ensures Valid() && State() == old(State())
      ensures r.Valid() && r.State() == Opened(State(), n)
      ensures r.source == source && |r.chain| == |chain| + 1 && r.chain[..|chain|] == chain && fresh(r.chain[|chain|])
    {
      ghost var t := State();
      var cell := new Allowance(n);
      assert State() == t;
      r := new RLPReader(source, chain + [cell]);
      assert State() == t;
    }

    /** The next byte string; a list prefix or an incomplete stream is an error. */
    method ReadString() returns (r: Answer<seq<Byte>>)
      requires Valid()
      modifies source, chain
      ensures Valid() && State() == StringRead(old(State())).stream
      ensures match StringRead(old(State())) case Got(bytes, _) => r == Ok(bytes) case Refused(e, _) => r == Err(e)
    {
      var prefix := ReadFull(1);
      if prefix.Err? {
        return prefix;
      }
      r := ReadStringAfter(prefix.value[0]);
    }

    method ReadStringAfter(key: Byte) returns (r: Answer<seq<Byte>>)
      requires Valid()
      modifies source, chain
      ensures Valid() && State() == StringAfter(key, old(State())).stream
      ensures match StringAfter(key, old(State())) case Got(bytes, _) => r == Ok(bytes) case Refused(e, _) => r == Err(e)
    {
      if key <= 0x7f {
        return Ok([key]);
      }
      if key == 0x80 {
        return Ok([]);
      }
      if key <= 0xb7 {
        var dataLen := key - 0x80;
        r := ReadFull(dataLen);
        return;
      }
      if key <= 0xbf {
        var numLenBytes := key - 0xb7;
        r := ReadLongString(numLenBytes);
        return;
      }
      return Err(WantedString);
    }

    method ReadLongString(numLenBytes: nat) returns (r: Answer<seq<Byte>>)
      requires Valid() && numLenBytes <= 8
      modifies source, chain
      ensures Valid() && State() == LongString(numLenBytes, old(State())).stream
      ensures match LongString(numLenBytes, old(State()))
        case Got(bytes, _) => r == Ok(bytes)
        case Refused(e, _) => r == Err(e)
    {
      var dataLen := ReadLength(numLenBytes);
      if dataLen.Err? {
        return Err(dataLen.error);
      }
      if dataLen.value < 0 {
        return Err(MakePanics);
      }
      r := ReadFull(dataLen.value);
    }

    /** Hands out a reader for the contents of the next list, stacked on this one. */
    method ReadList() returns (r: Answer<RLPReader>)
      requires Valid()
      modifies source, chain
      ensures Valid()
      ensures match ListRead(old(State()))
        case Got(_, t) =>
          && r.Ok? && r.value.Valid() && r.value.State() == t && State() == Outer(t)
          && r.value.source == source && |r.value.chain| == |chain| + 1 && r.value.chain[..|chain|] == chain
          && fresh(r.value.chain[|chain|])
        case Refused(e, t) => r == Err(e) && State() == t
    {
      var prefix := ReadFull(1);
      if prefix.Err? {
        return Err(prefix.error);
      }
      var key := prefix.value[0];
      var payloadLen := 0;
      if key == 0xc0 {
        payloadLen := 0;
      } else if key > 0xc0 && key <= 0xf7 {
        payloadLen := key - 0xc0;
      } else if key > 0xf7 {
        var numLenBytes := key - 0xf7;
        var len := ReadLength(numLenBytes);
        if len.Err? {
          return Err(len.error);
        }
        payloadLen := len.value;
      } else {
        return Err(WantedList);
      }
      var inner := Limit(payloadLen);
      r := Ok(inner);
    }
  }

  /** A list's reader and the reader that handed it out see the same source and the same outer limits. */
  lemma SharedState(outer: RLPReader, inner: RLPReader)
    requires inner.source == outer.source
    requires |inner.chain| == |outer.chain| + 1 && inner.chain[..|outer.chain|] == outer.chain
    ensures inner.State().limits.Within? && outer.State() == Outer(inner.State())
  {
  }

  datatype ShapeResult = Collected(strings: seq<seq<Byte>>) | Failure(error: ReadError)

  /** Reads by shape with the reader objects: a list is read through its own reader. */
  method ReadShape(r: RLPReader, t: Tree) returns (result: ShapeResult)
    requires r.Valid()
    modifies r.source, r.chain
    ensures r.Valid()
    ensures match Drive(t, old(r.State()))
      case Finished(strings, s) => result == Collected(strings) && r.State() == s
      case Stopped(e) => result == Failure(e)
    decreases t, 1
  {
    match t
    case Str(_) =>
      var a := r.ReadString();
      result := if a.Ok? then Collected([a.value]) else Failure(a.error);
    case Lst(items) =>
      var list := r.ReadList();
      if list.Err? {
        return Failure(list.error);
      }
      result := ReadShapes(list.value, items);
      SharedState(r, list.value);
  }

  method ReadShapes(r: RLPReader, items: seq<Tree>) returns (result: ShapeResult)
    requires r.Valid()
    modifies r.source, r.chain
    ensures r.Valid()
    ensures match DriveAll(items, old(r.State()))
      case Finished(strings, s) => result == Collected(strings) && r.State() == s
      case Stopped(e) => result == Failure(e)
    decreases items, 0
  {
    if items == [] {
      return Collected([]);
    }
    var first := ReadShape(r, items[0]);
    if first.Failure? {
      return first;
    }
    var rest := ReadShapes(r, items[1..]);
    result := if rest.Failure? then rest else Collected(first.strings + rest.strings);
  }
}
