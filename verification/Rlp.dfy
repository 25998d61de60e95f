/** Recursive length prefix: the encoder, the offset-based decoder, and how they fit together. */
module Rlp {
  import opened BigEndian

  const INT_LIMIT: int := 0x8000_0000_0000_0000

  /** What the encoder may be handed. `Other` stands for every unsupported dynamic type. */
  datatype Item =
    | Bytes(data: seq<Byte>)
    | Text(data: seq<Byte>)
    | Uint(n: nat)
    | List(items: seq<Item>)
    | Null
    | Other

  ghost predicate Supported(x: Item) {
    match x
    case Uint(n) => n < TWO64
    case List(items) => forall i :: 0 <= i < |items| ==> Supported(items[i])
    case Other => false
    case _ => true
  }

  /** A header for `len` bytes of content: one byte up to 55, else the length of the length first. */
  function Header(short: Byte, len: nat): seq<Byte> {
    if len <= 55 then [(short + len) % 256]
    else [(short + 55 + |Minimal(len)|) % 256] + Minimal(len)
  }

  function EncodedString(data: seq<Byte>): (r: seq<Byte>)
    ensures |r| >= 1
  {
    if |data| == 1 && data[0] <= 0x7f then data else Header(0x80, |data|) + data
  }

  function EncodedUint(n: nat): (r: seq<Byte>)
    ensures |r| >= 1
  {
    if n == 0 then [0x80] else if n <= 127 then [n] else EncodedString(Minimal(n))
  }

  function Encoded(x: Item): (r: seq<Byte>)
    ensures x != Other ==> |r| >= 1
    decreases x, 1
  {
    match x
    case Bytes(data) => EncodedString(data)
    case Text(data) => EncodedString(data)
    case Uint(n) => EncodedUint(n)
    case List(items) => var payload := EncodedAll(items); Header(0xc0, |payload|) + payload
    case Null => [0x80]
    case Other => []
  }

  function EncodedAll(items: seq<Item>): seq<Byte>
    decreases items, 0
  {
    if items == [] then [] else Encoded(items[0]) + EncodedAll(items[1..])
  }

  /** The dynamic types the decoder answers with: `""`, a bare byte, a byte slice, or a list. */
  datatype Decoded = EmptyText | Single(b: Byte) | Slice(data: seq<Byte>) | Sequence(items: seq<Decoded>)

  datatype Error = EmptyData | OutOfBounds

  /** `Outside`: a slice expression leaves the data. `TooLong`: the end of a list does not
      fit an int. */
  datatype Outcome<T> = Done(value: T, consumed: nat) | Failed(error: Error) | Outside | TooLong

  function DecodeItem(data: seq<Byte>, offset: nat): (r: Outcome<Decoded>)
    ensures r.Done? ==> r.consumed >= 1 && offset < |data|
    decreases |data| - offset, 0
  {
    if |data| == 0 then Failed(EmptyData)
    else if |data| <= offset then Failed(OutOfBounds)
    else
      var key := data[offset];
      if key == 0x80 then Done(EmptyText, 1)
      else if key == 0xc0 then Done(Slice([]), 1)
      else if key <= 0x7f then Done(Single(key), 1)
      else if key <= 0xb7 then Content(data, offset, 1, key - 0x80)
      else if key <= 0xbf then
        var n := key - 0xb7;
        if offset + 1 + n > |data| then Outside
        else Content(data, offset, 1 + n, Value(data[offset + 1..offset + 1 + n]))
      else if key <= 0xf7 then Listed(data, offset, 1, key - 0xc0)
      else
        var n := key - 0xf7;
        if offset + 1 + n > |data| then Outside
        else Listed(data, offset, 1 + n, Value(data[offset + 1..offset + 1 + n]))
  }

  /** The string of `len` bytes behind a header of `head` bytes. */
  function Content(data: seq<Byte>, offset: nat, head: nat, len: nat): (r: Outcome<Decoded>)
    requires 1 <= head && offset < |data|
    ensures r.Done? ==> r.consumed >= 1
  {
    if offset + head + len > |data| then Outside
    else Done(Slice(data[offset + head..offset + head + len]), head + len)
  }

  /** The list whose items take the `len` bytes behind a header of `head` bytes. */
  function Listed(data: seq<Byte>, offset: nat, head: nat, len: nat): (r: Outcome<Decoded>)
    requires 1 <= head && offset < |data|
    ensures r.Done? ==> r.consumed >= 1
    decreases |data| - offset - 1, 2
  {
    if offset + head + len >= INT_LIMIT then TooLong
    else
      match DecodeItems(data, offset + head, offset + head + len)
      case Done(items, _) => Done(Sequence(items), head + len)
      case Failed(e) => Failed(e)
      case Outside => Outside
      case TooLong => TooLong
  }

  /** Decodes items from `pos` on until `end` is reached or passed. */
  function DecodeItems(data: seq<Byte>, pos: nat, end: nat): (r: Outcome<seq<Decoded>>)
    decreases if pos < |data| then |data| - pos else 0, 1
  {
    if pos >= end then Done([], 0)
    else
      match DecodeItem(data, pos)
      case Failed(e) => Failed(e)
      case Outside => Outside
      case TooLong => TooLong
      case Done(v, n) =>
        match DecodeItems(data, pos + n, end)
        case Done(rest, m) => Done([v] + rest, n + m)
        case Failed(e) => Failed(e)
        case Outside => Outside
        case TooLong => TooLong
  }

  /** What the encoding keeps of an item: a byte string or a list. */
  datatype Tree = Str(data: seq<Byte>) | Lst(items: seq<Tree>)

  function Canon(x: Item): Tree
    requires x != Other
    decreases x, 1
  {
    match x
    case Bytes(data) => Str(data)
    case Text(data) => Str(data)
    case Uint(n) => Str(if n == 0 then [] else Minimal(n))
    case List(items) => Lst(CanonAll(items))
    case Null => Str([])
  }

  function CanonAll(items: seq<Item>): (r: seq<Tree>)
    ensures |r| == |items|
    decreases items, 0
  {
    if items == [] then []
    else [if items[0] == Other then Str([]) else Canon(items[0])] + CanonAll(items[1..])
  }

  /** The form in which the decoder presents a tree. */
  function Norm(t: Tree): Decoded
    decreases t, 1
  {
    match t
    case Str(data) =>
      if data == [] then EmptyText
      else if |data| == 1 && data[0] <= 0x7f then Single(data[0])
      else Slice(data)
    case Lst(items) => if items == [] then Slice([]) else Sequence(NormAll(items))
  }

  function NormAll(items: seq<Tree>): (r: seq<Decoded>)
    ensures |r| == |items|
    decreases items, 0
  {
    if items == [] then [] else [Norm(items[0])] + NormAll(items[1..])
  }

  /** No two trees look the same to whoever reads the decoder's answer. */
  lemma {:induction false} NormInjective(t: Tree, u: Tree)
    requires Norm(t) == Norm(u)
    ensures t == u
    decreases t, 1
  {
    if t.Lst? && u.Lst? && t.items != [] && u.items != [] {
      NormAllInjective(t.items, u.items);
    }
  }

  lemma {:induction false} NormAllInjective(ts: seq<Tree>, us: seq<Tree>)
    requires NormAll(ts) == NormAll(us)
    ensures ts == us
    decreases ts, 0
  {
    if ts != [] {
      assert us != [];
      assert NormAll(ts)[0] == Norm(ts[0]) && NormAll(us)[0] == Norm(us[0]);
      assert NormAll(ts)[1..] == NormAll(ts[1..]) && NormAll(us)[1..] == NormAll(us[1..]);
      NormInjective(ts[0], us[0]);
      NormAllInjective(ts[1..], us[1..]);
      assert ts == [ts[0]] + ts[1..] && us == [us[0]] + us[1..];
    }
  }

  /** `code` stands in `data` at `offset`, and every offset fits an int. */
  ghost predicate Holds(data: seq<Byte>, offset: nat, code: seq<Byte>) {
    offset + |code| <= |data| < INT_LIMIT && data[offset..offset + |code|] == code
  }

  lemma KeyAt(data: seq<Byte>, offset: nat, code: seq<Byte>)
    requires Holds(data, offset, code) && code != []
    ensures offset < |data| && data[offset] == code[0]
  {
    assert data[offset] == data[offset..offset + |code|][0];
  }

  lemma HoldsSplit(data: seq<Byte>, offset: nat, a: seq<Byte>, b: seq<Byte>)
    requires Holds(data, offset, a + b)
    ensures Holds(data, offset, a) && Holds(data, offset + |a|, b)
  {
    assert a == (a + b)[..|a|] && b == (a + b)[|a|..];
  }

  /** Reading back a header: the key falls in the range of its kind and carries the length. */
  lemma HeaderReads(data: seq<Byte>, offset: nat, short: Byte, len: nat)
    requires short == 0x80 || short == 0xc0
    requires len < INT_LIMIT && Holds(data, offset, Header(short, len))
    ensures
      var key := data[offset];
      if len <= 55 then key == short + len && |Header(short, len)| == 1
      else
        var n := key - (short + 55);
        && 1 <= n <= 8 && |Header(short, len)| == 1 + n
        && offset + 1 + n <= |data|
        && Value(data[offset + 1..offset + 1 + n]) == len
  {
    if len <= 55 {
      KeyAt(data, offset, Header(short, len));
    } else {
      MinimalLength(len);
      MinimalRoundTrip(len);
      FieldAt(data, offset, short + 55 + |Minimal(len)|, Minimal(len));
    }
  }

  lemma FieldAt(data: seq<Byte>, offset: nat, key: Byte, field: seq<Byte>)
    requires Holds(data, offset, [key] + field)
    ensures data[offset] == key && offset + 1 + |field| <= |data|
    ensures data[offset + 1..offset + 1 + |field|] == field
  {
    HoldsSplit(data, offset, [key], field);
    KeyAt(data, offset, [key]);
  }

  /** Behind a string header the decoder takes the content, behind a list header it lists items. */
  lemma HeaderDispatch(data: seq<Byte>, offset: nat, short: Byte, len: nat)
    requires short == 0x80 || short == 0xc0
    requires 1 <= len < INT_LIMIT && Holds(data, offset, Header(short, len))
    ensures DecodeItem(data, offset) ==
      if short == 0x80 then Content(data, offset, |Header(short, len)|, len)
      else Listed(data, offset, |Header(short, len)|, len)
  {
    HeaderReads(data, offset, short, len);
  }

  lemma StringReads(data: seq<Byte>, offset: nat, s: seq<Byte>)
    requires Holds(data, offset, EncodedString(s))
    ensures DecodeItem(data, offset) == Done(Norm(Str(s)), |EncodedString(s)|)
  {
    KeyAt(data, offset, EncodedString(s));
    if s != [] && !(|s| == 1 && s[0] <= 0x7f) {
      LongStringReads(data, offset, s);
    }
  }

  lemma LongStringReads(data: seq<Byte>, offset: nat, s: seq<Byte>)
    requires s != [] && Holds(data, offset, Header(0x80, |s|) + s)
    ensures DecodeItem(data, offset) == Done(Slice(s), |Header(0x80, |s|)| + |s|)
  {
    var head := |Header(0x80, |s|)|;
    HoldsSplit(data, offset, Header(0x80, |s|), s);
    HeaderDispatch(data, offset, 0x80, |s|);
    ContentReads(data, offset, head, s);
  }

  lemma ContentReads(data: seq<Byte>, offset: nat, head: nat, s: seq<Byte>)
    requires 1 <= head && offset < |data| && Holds(data, offset + head, s)
    ensures Content(data, offset, head, |s|) == Done(Slice(s), head + |s|)
  {
  }

  lemma EmptyListReads(data: seq<Byte>, offset: nat)
    requires Holds(data, offset, Header(0xc0, 0))
    ensures DecodeItem(data, offset) == Done(Slice([]), 1)
  {
    KeyAt(data, offset, Header(0xc0, 0));
  }

  lemma FullListReads(data: seq<Byte>, offset: nat, head: nat, len: nat, items: seq<Decoded>)
    requires 1 <= len < INT_LIMIT && Holds(data, offset, Header(0xc0, len)) && head == |Header(0xc0, len)|
    requires offset + head + len < INT_LIMIT
    requires DecodeItems(data, offset + head, offset + head + len) == Done(items, len)
    ensures DecodeItem(data, offset) == Done(Sequence(items), head + len)
  {
    HeaderDispatch(data, offset, 0xc0, len);
  }

  lemma ListReads(data: seq<Byte>, offset: nat, start: nat, end: nat, payload: seq<Byte>, items: seq<Decoded>)
    requires Holds(data, offset, Header(0xc0, |payload|) + payload)
    requires start == offset + |Header(0xc0, |payload|)| && end == start + |payload|
    requires DecodeItems(data, start, end) == Done(items, end - start)
    ensures DecodeItem(data, offset) == Done(if payload == [] then Slice([]) else Sequence(items), end - offset)
  {
    var head := Header(0xc0, |payload|);
    HoldsSplit(data, offset, head, payload);
    if payload == [] {
      EmptyListReads(data, offset);
    } else {
      FullListReads(data, offset, |head|, |payload|, items);
    }
  }

  lemma UintIsString(n: nat)
    ensures EncodedUint(n) == EncodedString(if n == 0 then [] else Minimal(n))
  {
  }

  /** Decoding an encoding, wherever it stands, gives back the item's normal form and consumes exactly
      the encoding. */
  lemma {:induction false} RoundTrip(data: seq<Byte>, offset: nat, x: Item)
    requires Supported(x) && Holds(data, offset, Encoded(x))
    ensures DecodeItem(data, offset) == Done(Norm(Canon(x)), |Encoded(x)|)
    decreases x, 1
  {
    if x.List? {
      var payload := EncodedAll(x.items);
      var head := Header(0xc0, |payload|);
      var start, end := offset + |head|, offset + |Encoded(x)|;
      assert Encoded(x) == head + payload;
      HoldsSplit(data, offset, head, payload);
      RoundTripAll(data, start, end, x.items);
      ListReads(data, offset, start, end, payload, NormAll(CanonAll(x.items)));
      assert x.items != [] ==> |payload| >= |Encoded(x.items[0])| >= 1;
    } else {
      StringItem(x);
      StringReads(data, offset, Canon(x).data);
    }
  }

  lemma StringItem(x: Item)
    requires !x.List? && !x.Other?
    ensures Canon(x).Str? && Encoded(x) == EncodedString(Canon(x).data)
  {
    if x.Uint? {
      UintIsString(x.n);
    }
  }

  lemma {:induction false} RoundTripAll(data: seq<Byte>, pos: nat, end: nat, items: seq<Item>)
    requires forall i :: 0 <= i < |items| ==> Supported(items[i])
    requires Holds(data, pos, EncodedAll(items)) && end == pos + |EncodedAll(items)|
    ensures DecodeItems(data, pos, end) == Done(NormAll(CanonAll(items)), end - pos)
    decreases items, 0
  {
    if items != [] {
      var first, rest := Encoded(items[0]), EncodedAll(items[1..]);
      assert EncodedAll(items) == first + rest;
      HoldsSplit(data, pos, first, rest);
      var next := pos + |first|;
      RoundTrip(data, pos, items[0]);
      RoundTripAll(data, next, end, items[1..]);
      NormStep(items);
      ItemsStep(data, pos, next, end, Norm(Canon(items[0])), NormAll(CanonAll(items[1..])));
    }
  }

  lemma ItemsStep(data: seq<Byte>, pos: nat, next: nat, end: nat, v: Decoded, rest: seq<Decoded>)
    requires pos < next <= end && DecodeItem(data, pos) == Done(v, next - pos)
    requires DecodeItems(data, next, end) == Done(rest, end - next)
    ensures DecodeItems(data, pos, end) == Done([v] + rest, end - pos)
  {
  }

  lemma NormStep(items: seq<Item>)
    requires items != [] && items[0] != Other
    ensures NormAll(CanonAll(items)) == [Norm(Canon(items[0]))] + NormAll(CanonAll(items[1..]))
  {
    assert CanonAll(items)[1..] == CanonAll(items[1..]);
  }

  /** The encoding of an item is decided by its tree. */
  lemma {:induction false} SameTreeSameCode(x: Item, y: Item)
    requires x != Other && y != Other && Canon(x) == Canon(y)
    requires Supported(x) && Supported(y)
    ensures Encoded(x) == Encoded(y)
    decreases x, 1
  {
    if x.Uint? { UintIsString(x.n); }
    if y.Uint? { UintIsString(y.n); }
    if x.List? {
      SameTreesSameCode(x.items, y.items);
    }
  }

  lemma {:induction false} SameTreesSameCode(xs: seq<Item>, ys: seq<Item>)
    requires forall i :: 0 <= i < |xs| ==> Supported(xs[i])
    requires forall i :: 0 <= i < |ys| ==> Supported(ys[i])
    requires CanonAll(xs) == CanonAll(ys)
    ensures EncodedAll(xs) == EncodedAll(ys)
    decreases xs, 0
  {
    if xs != [] {
      assert ys != [];
      assert CanonAll(xs)[0] == Canon(xs[0]) && CanonAll(ys)[0] == Canon(ys[0]);
      assert CanonAll(xs)[1..] == CanonAll(xs[1..]) && CanonAll(ys)[1..] == CanonAll(ys[1..]);
      SameTreeSameCode(xs[0], ys[0]);
      SameTreesSameCode(xs[1..], ys[1..]);
    }
  }

  /** The code is prefix-free and injective up to the tree: one encoding starts another only if both
      encode the same tree, and then they are equal. */
  lemma PrefixFree(x: Item, y: Item)
    requires Supported(x) && Supported(y) && |Encoded(x)| < INT_LIMIT && |Encoded(y)| < INT_LIMIT
    ensures Encoded(x) <= Encoded(y) <==> Canon(x) == Canon(y)
    ensures Encoded(x) <= Encoded(y) ==> Encoded(x) == Encoded(y)
  {
    if Encoded(x) <= Encoded(y) {
      RoundTrip(Encoded(y), 0, y);
      RoundTrip(Encoded(y), 0, x);
      NormInjective(Canon(x), Canon(y));
    }
    if Canon(x) == Canon(y) {
      SameTreeSameCode(x, y);
    }
  }

  method RLPEncodeString(data: seq<Byte>) returns (r: seq<Byte>)
    requires |data| < INT_LIMIT
    ensures r == EncodedString(data)
  {
    var dataLen := |data|;
    if dataLen == 1 && data[0] <= 0x7f {
      return data;
    } else if dataLen <= 55 {
      return [0x80 + dataLen] + data;
    } else {
      var lenBytes := EncodeBigEndian(dataLen);
      MinimalLength(dataLen);
      return [0xb7 + |lenBytes|] + lenBytes + data;
    }
  }

  function Concat(parts: seq<seq<Byte>>): seq<Byte> {
    if parts == [] then [] else Concat(parts[..|parts| - 1]) + parts[|parts| - 1]
  }

  method RLPEncodeList(items: seq<seq<Byte>>) returns (r: seq<Byte>)
    requires |Concat(items)| < INT_LIMIT
    ensures r == Header(0xc0, |Concat(items)|) + Concat(items)
  {
    var result: seq<Byte> := [];
    for i := 0 to |items|
      invariant result == Concat(items[..i])
    {
      var arr := items[i];
      for j := 0 to |arr|
        invariant result == Concat(items[..i]) + arr[..j]
      {
        result := result + [arr[j]];
      }
      assert items[..i + 1][..i] == items[..i] && arr[..|arr|] == arr;
    }
    assert items[..|items|] == items;
    var payloadLen := |result|;
    var prefix;
    if payloadLen <= 55 {
      prefix := [0xc0 + payloadLen];
    } else {
      var lenBytes := EncodeBigEndian(payloadLen);
      MinimalLength(payloadLen);
      prefix := [0xf7 + |lenBytes|];
      prefix := prefix + lenBytes;
    }
    r := prefix + result;
  }

  method RLPEncodeUint64(n: nat) returns (r: seq<Byte>)
    requires n < TWO64
    ensures r == EncodedUint(n)
  {
    if n == 0 {
      return [0x80];
    } else if n <= 127 {
      return [n];
    } else {
      var nBytes := EncodeBigEndian(n);
      MinimalLength(n);
      r := RLPEncodeString(nBytes);
    }
  }

  datatype EncodeResult = Code(bytes: seq<Byte>) | Unsupported

  /** Every uint64 in `x` is one, and no encoding on the way is longer than a slice can be. */
  ghost predicate Encodable(x: Item) {
    match x
    case Uint(n) => n < TWO64
    case List(items) => |EncodedAll(items)| < INT_LIMIT && forall i :: 0 <= i < |items| ==> Encodable(items[i])
    case Bytes(data) => |data| < INT_LIMIT
    case Text(data) => |data| < INT_LIMIT
    case _ => true
  }

  lemma ConcatStep(items: seq<Item>, i: nat, parts: seq<seq<Byte>>)
    requires i < |items|
    ensures Concat(parts + [Encoded(items[i])]) + EncodedAll(items[i + 1..]) == Concat(parts) + EncodedAll(items[i..])
  {
    var more := parts + [Encoded(items[i])];
    assert more[..|more| - 1] == parts;
    assert items[i..][1..] == items[i + 1..];
  }

  /** Encodes everything but an item that holds an unsupported type anywhere. */
  method RLPEncode(x: Item) returns (r: EncodeResult)
    requires Encodable(x)
    ensures r == if Supported(x) then Code(Encoded(x)) else Unsupported
    decreases x, 1
  {
    match x
    case Bytes(data) => var s := RLPEncodeString(data); r := Code(s);
    case Text(data) => var s := RLPEncodeString(data); r := Code(s);
    case Uint(n) => var s := RLPEncodeUint64(n); r := Code(s);
    case Null => r := Code([0x80]);
    case Other => r := Unsupported;
    case List(items) =>
      var ok, encodedItems := RLPEncodeEach(items);
      if !ok {
        return Unsupported;
      }
      var s := RLPEncodeList(encodedItems);
      r := Code(s);
  }

  /** The item loop of the list case. */
  method RLPEncodeEach(items: seq<Item>) returns (ok: bool, encodedItems: seq<seq<Byte>>)
    requires forall i :: 0 <= i < |items| ==> Encodable(items[i])
    ensures ok <==> forall i :: 0 <= i < |items| ==> Supported(items[i])
    ensures ok ==> Concat(encodedItems) == EncodedAll(items)
    decreases items, 0
  {
    encodedItems := [];
    for i := 0 to |items|
      invariant Concat(encodedItems) + EncodedAll(items[i..]) == EncodedAll(items)
      invariant forall k :: 0 <= k < i ==> Supported(items[k])
    {
      var encoded := RLPEncode(items[i]);
      if encoded.Unsupported? {
        return false, encodedItems;
      }
      ConcatStep(items, i, encodedItems);
      encodedItems := encodedItems + [encoded.bytes];
    }
    ok := true;
  }

  /** Items decoded so far put before the outcome of decoding the rest. */
  function Before(items: seq<Decoded>, n: nat, o: Outcome<seq<Decoded>>): Outcome<seq<Decoded>> {
    match o
    case Done(rest, m) => Done(items + rest, n + m)
    case _ => o
  }

  lemma BeforeNothing(o: Outcome<seq<Decoded>>)
    ensures Before([], 0, o) == o
  {
    if o.Done? {
      assert [] + o.value == o.value;
    }
  }

  lemma BeforeOneMore(items: seq<Decoded>, n: nat, v: Decoded, m: nat, o: Outcome<seq<Decoded>>)
    ensures Before(items + [v], n + m, o) == Before(items, n, Before([v], m, o))
  {
    if o.Done? {
      assert items + ([v] + o.value) == (items + [v]) + o.value;
    }
  }

  method RLPDecodeItem(data: seq<Byte>, offset: nat) returns (r: Outcome<Decoded>)
    requires |data| < INT_LIMIT
    ensures r == DecodeItem(data, offset)
    decreases |data| - offset, 1
  {
    if |data| == 0 {
      return Failed(EmptyData);
    } else if |data| <= offset {
      return Failed(OutOfBounds);
    }
    var key := data[offset];
    if key == 0x80 {
      return Done(EmptyText, 1);
    }
    if key == 0xc0 {
      return Done(Slice([]), 1);
    }
    if key <= 0x7f {
      return Done(Single(key), 1);
    }
    if key <= 0xb7 {
      var dataLen := key - 0x80;
      if offset + 1 + dataLen > |data| {
        return Outside;
      }
      return Done(Slice(data[offset + 1..offset + 1 + dataLen]), dataLen + 1);
    }
    if key <= 0xbf {
      var numLenBytes := key - 0xb7;
      if offset + 1 + numLenBytes > |data| {
        return Outside;
      }
      var dataLen := DecodeBigEndian(data[offset + 1..offset + 1 + numLenBytes]);
      var dataStart := offset + 1 + numLenBytes;
      var totalConsumed := 1 + numLenBytes + dataLen;
      if dataLen < 0 || dataStart + dataLen > |data| {
        return Outside;
      }
      assert DecodeItem(data, offset) == Content(data, offset, 1 + numLenBytes, dataLen);
      return Done(Slice(data[dataStart..dataStart + dataLen]), totalConsumed);
    }
    var payloadLen, pos;
    if key <= 0xf7 {
      payloadLen := key - 0xc0;
      pos := offset + 1;
    } else {
      var numLenBytes := key - 0xf7;
      if offset + 1 + numLenBytes > |data| {
        return Outside;
      }
      payloadLen := DecodeBigEndian(data[offset + 1..offset + 1 + numLenBytes]);
      pos := offset + 1 + numLenBytes;
    }
    if payloadLen < 0 || pos + payloadLen >= INT_LIMIT {
      return TooLong;
    }
    assert DecodeItem(data, offset) == Listed(data, offset, pos - offset, payloadLen);
    var endPos := pos + payloadLen;
    var items := RLPDecodeItems(data, pos, endPos);
    match items
    case Failed(e) => r := Failed(e);
    case Outside => r := Outside;
    case TooLong => r := TooLong;
    case Done(vs, _) => r := Done(Sequence(vs), pos - offset + payloadLen);
  }

  /** The item loop of both list cases. */
  method RLPDecodeItems(data: seq<Byte>, start: nat, endPos: nat) returns (r: Outcome<seq<Decoded>>)
    requires |data| < INT_LIMIT
    ensures r == DecodeItems(data, start, endPos)
    decreases if start < |data| then |data| - start else 0, 2
  {
    var pos := start;
    var items: seq<Decoded> := [];
    BeforeNothing(DecodeItems(data, pos, endPos));
    while pos < endPos
      invariant start <= pos
      invariant DecodeItems(data, start, endPos) == Before(items, pos - start, DecodeItems(data, pos, endPos))
      decreases endPos - pos
    {
      var item := RLPDecodeItem(data, pos);
      match item {
        case Failed(e) => return Failed(e);
        case Outside => return Outside;
        case TooLong => return TooLong;
        case Done(v, consumed) =>
          BeforeOneMore(items, pos - start, v, consumed, DecodeItems(data, pos + consumed, endPos));
          items := items + [v];
          pos := pos + consumed;
      }
    }
    assert items + [] == items;
    r := Done(items, pos - start);
  }

  method RLPDecode(data: seq<Byte>) returns (r: Outcome<Decoded>)
    requires |data| < INT_LIMIT
    ensures r == DecodeItem(data, 0)
    ensures forall x :: Supported(x) && Encoded(x) == data ==> r == Done(Norm(Canon(x)), |data|)
  {
    r := RLPDecodeItem(data, 0);
    forall x | Supported(x) && Encoded(x) == data
      ensures r == Done(Norm(Canon(x)), |data|)
    {
      RoundTrip(data, 0, x);
    }
  }
}
