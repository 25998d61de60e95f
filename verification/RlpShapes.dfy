/** What the streaming reader answers when it is asked for the wrong kind of item, or for more than there
    is: reading encoded items by any shape at all is matching the shape against the items. */
module RlpShapes {
  import opened BigEndian
  import opened Rlp
  import opened RlpReader

  /** The limits let through what each of them allows, and no more than there is. */
  lemma {:induction false} GrantedExactly(n: nat, limits: Limits, k: nat)
    ensures k <= Granted(n, limits) <==> k == 0 || (k <= n && Allows(limits, k))
    decreases limits
  {
    if limits.Within? {
      GrantedExactly(if limits.allowed < 0 then 0 else if limits.allowed < n then limits.allowed else n, limits.outer, k);
    }
  }

  /** A full read in terms of the bytes and the limits: the bytes asked for, or an error that says whether
      there was any byte at all. */
  lemma FullReadExactly(s: Stream, k: nat)
    requires s.pos <= |s.data|
    ensures
      var unread := |s.data| - s.pos;
      match FullRead(s, k)
      case Got(bytes, _) => (k == 0 || (k <= unread && Allows(s.limits, k))) && bytes == s.data[s.pos..s.pos + k]
      case Refused(e, _) =>
        && k > 0 && !(k <= unread && Allows(s.limits, k))
        && e == if unread == 0 || !Allows(s.limits, 1) then EOF else UnexpectedEOF
  {
    GrantedExactly(|s.data| - s.pos, s.limits, k);
    GrantedExactly(|s.data| - s.pos, s.limits, 1);
  }

  // One item.

  /** The first byte of an encoding tells strings from lists. */
  lemma FirstByte(x: Item)
    requires Supported(x) && |Encoded(x)| < INT_LIMIT
    ensures Encoded(x) != [] && (Encoded(x)[0] < 0xc0 <==> Canon(x).Str?)
  {
    if x.List? {
      HeaderByte(0xc0, |EncodedAll(x.items)|);
    } else {
      StringItem(x);
      var data := Canon(x).data;
      if !(|data| == 1 && data[0] <= 0x7f) {
        HeaderByte(0x80, |data|);
      }
    }
  }

  lemma HeaderByte(short: Byte, len: nat)
    requires (short == 0x80 || short == 0xc0) && len < INT_LIMIT
    ensures Header(short, len) != [] && short <= Header(short, len)[0] < short + 0x40
  {
    if len > 55 {
      HeaderParts(short, len);
    }
  }

  lemma FirstByteIsRead(s: Stream, x: Item)
    requires Supported(x) && Ready(s, Encoded(x))
    ensures FullRead(s, 1) == Got([Encoded(x)[0]], Advance(s, 1))
  {
    var code := Encoded(x);
    assert code == [code[0]] + code[1..];
    FullReads(s, [code[0]], code[1..]);
  }

  /** ReadString in front of any encoded item: the string, or the complaint after just the first byte. */
  lemma StringExactly(x: Item, s: Stream)
    requires Supported(x) && Ready(s, Encoded(x))
    ensures StringRead(s) ==
      if Canon(x).Str? then Got(Canon(x).data, Advance(s, |Encoded(x)|)) else Refused(WantedString, Advance(s, 1))
  {
    if Canon(x).Str? {
      StringItem(x);
      StringIsRead(s, Canon(x).data);
    } else {
      FirstByte(x);
      FirstByteIsRead(s, x);
    }
  }

  /** What the reader of a list sees. */
  ghost function Inside(s: Stream, x: Item): Stream
    requires x.List?
  {
    var payload := EncodedAll(x.items);
    Opened(Advance(s, |Header(0xc0, |payload|)|), |payload|)
  }

  /** ReadList in front of any encoded item: a reader for exactly the list's payload, or the complaint. */
  lemma ListExactly(x: Item, s: Stream)
    requires Supported(x) && Ready(s, Encoded(x))
    ensures
      if Canon(x).Lst? then ListRead(s) == Got([], Inside(s, x)) && Inside(s, x).limits.allowed == |EncodedAll(x.items)|
      else ListRead(s) == Refused(WantedList, Advance(s, 1))
  {
    if x.List? {
      ListIsOpened(s, EncodedAll(x.items));
    } else {
      StringRefused(x, s);
    }
  }

  lemma StringRefused(x: Item, s: Stream)
    requires Supported(x) && Canon(x).Str? && Ready(s, Encoded(x))
    ensures ListRead(s) == Refused(WantedList, Advance(s, 1))
  {
    FirstByte(x);
    FirstByteIsRead(s, x);
  }

  // Any shape.

  datatype Matched = Left(strings: seq<seq<Byte>>, rest: seq<Item>) | Clash(error: ReadError)

  ghost predicate AllSupported(items: seq<Item>) {
    forall i :: 0 <= i < |items| ==> Supported(items[i])
  }

  /** Matches a shape against the items that come next. What a list's shape does not ask for is not
      skipped: whoever reads on finds it. */
  ghost function Match(t: Tree, items: seq<Item>): (r: Matched)
    requires AllSupported(items)
    ensures r.Left? ==> AllSupported(r.rest)
    decreases t, 1
  {
    if items == [] then Clash(EOF)
    else
      match t
      case Str(_) =>
        if Canon(items[0]).Str? then Left([Canon(items[0]).data], items[1..]) else Clash(WantedString)
      case Lst(shapes) =>
        if Canon(items[0]).Str? then Clash(WantedList)
        else
          match MatchAll(shapes, items[0].items)
          case Clash(e) => Clash(e)
          case Left(strings, rest) => Left(strings, rest + items[1..])
  }

  ghost function MatchAll(shapes: seq<Tree>, items: seq<Item>): (r: Matched)
    requires AllSupported(items)
    ensures r.Left? ==> AllSupported(r.rest)
    decreases shapes, 0
  {
    if shapes == [] then Left([], items)
    else
      match Match(shapes[0], items)
      case Clash(e) => Clash(e)
      case Left(strings, rest) =>
        match MatchAll(shapes[1..], rest)
        case Clash(e) => Clash(e)
        case Left(more, last) => Left(strings + more, last)
  }

  /** The items come next, and nothing behind them can be read. */
  ghost predicate Ahead(s: Stream, items: seq<Item>) {
    Ready(s, EncodedAll(items)) && Available(s) == |EncodedAll(items)|
  }

  lemma {:induction false} GrantedLess(n: nat, limits: Limits, k: nat)
    requires k <= Granted(n, limits)
    ensures Granted(n - k, Lowered(limits, k)) == Granted(n, limits) - k
    decreases limits
  {
    if limits.Within? {
      GrantedLess(if limits.allowed < 0 then 0 else if limits.allowed < n then limits.allowed else n, limits.outer, k);
    }
  }

  lemma NothingAhead(s: Stream)
    requires s.pos <= |s.data| && Available(s) == 0
    ensures StringRead(s).Refused? && StringRead(s).error == EOF
    ensures ListRead(s).Refused? && ListRead(s).error == EOF
  {
  }

  /** What is left of a stream after its front. */
  lemma AheadAfter(s: Stream, items: seq<Item>, front: seq<Byte>, rest: seq<Item>)
    requires Ahead(s, items) && EncodedAll(items) == front + EncodedAll(rest)
    ensures Ahead(Advance(s, |front|), rest)
  {
    SplitReady(s, front, EncodedAll(rest));
    AvailableAfter(s, |front|);
  }

  lemma AvailableAfter(s: Stream, k: nat)
    requires s.pos <= |s.data| && k <= Available(s)
    ensures s.pos + k <= |s.data| && Available(Advance(s, k)) == Available(s) - k
  {
    GrantedLess(|s.data| - s.pos, s.limits, k);
  }

  lemma LimitIsExact(t: Stream, payload: seq<Byte>)
    requires Ready(t, payload)
    ensures Ready(Opened(t, |payload|), payload) && Available(Opened(t, |payload|)) == |payload|
  {
    GrantedExactly(|t.data| - t.pos, Within(|payload|, t.limits), |payload|);
  }

  /** A list's own reader sees exactly its items. */
  lemma AheadInside(s: Stream, items: seq<Item>)
    requires Ahead(s, items) && items != [] && items[0].List? && AllSupported(items)
    ensures Ahead(Inside(s, items[0]), items[0].items)
  {
    var payload := EncodedAll(items[0].items);
    var header := Header(0xc0, |payload|);
    SplitItems(items, s);
    SplitReady(s, header, payload);
    LimitIsExact(Advance(s, |header|), payload);
  }

  lemma {:induction false} EncodedAllConcat(a: seq<Item>, b: seq<Item>)
    ensures EncodedAll(a + b) == EncodedAll(a) + EncodedAll(b)
    decreases a
  {
    if a == [] {
      assert a + b == b;
    } else {
      assert (a + b)[0] == a[0] && (a + b)[1..] == a[1..] + b;
      EncodedAllConcat(a[1..], b);
    }
  }

  /** The front of the items is what was taken. */
  ghost predicate Took(items: seq<Item>, rest: seq<Item>, front: seq<Byte>) {
    EncodedAll(items) == front + EncodedAll(rest)
  }

  ghost predicate Matches(r: DriveResult, m: Matched, s: Stream, items: seq<Item>) {
    match m
    case Clash(e) => r == Stopped(e)
    case Left(strings, rest) => exists front :: Takes(r, strings, s, items, rest, front)
  }

  ghost predicate Takes(
    r: DriveResult, strings: seq<seq<Byte>>, s: Stream, items: seq<Item>, rest: seq<Item>, front: seq<Byte>)
  {
    Took(items, rest, front) && r == Finished(strings, Advance(s, |front|))
  }

  lemma {:induction false} DriveMatches(t: Tree, items: seq<Item>, s: Stream)
    requires AllSupported(items) && Ahead(s, items)
    ensures Matches(Drive(t, s), Match(t, items), s, items)
    decreases t, 1
  {
    if items == [] {
      NothingAhead(s);
    } else if t.Str? {
      DriveString(t, items, s);
    } else if items[0].List? {
      AheadInside(s, items);
      DriveAllMatches(t.items, items[0].items, Inside(s, items[0]));
      ListMatches(t.items, items, s);
    } else {
      SplitItems(items, s);
      ListExactly(items[0], s);
    }
  }

  lemma {:induction false} DriveAllMatches(shapes: seq<Tree>, items: seq<Item>, s: Stream)
    requires AllSupported(items) && Ahead(s, items)
    ensures Matches(DriveAll(shapes, s), MatchAll(shapes, items), s, items)
    decreases shapes, 0
  {
    if shapes == [] {
      LoweredByNothing(s.limits);
      assert Takes(DriveAll([], s), [], s, items, items, []);
    } else {
      DriveMatches(shapes[0], items, s);
      var m := Match(shapes[0], items);
      if m.Left? {
        var front :| Takes(Drive(shapes[0], s), m.strings, s, items, m.rest, front);
        AheadAfter(s, items, front, m.rest);
        DriveAllMatches(shapes[1..], m.rest, Advance(s, |front|));
        StepMatches(shapes, items, s, front);
      }
    }
  }

  lemma DriveString(t: Tree, items: seq<Item>, s: Stream)
    requires AllSupported(items) && Ahead(s, items) && items != [] && t.Str?
    ensures Matches(Drive(t, s), Match(t, items), s, items)
  {
    SplitItems(items, s);
    StringExactly(items[0], s);
    if Canon(items[0]).Str? {
      assert Takes(Drive(t, s), [Canon(items[0]).data], s, items, items[1..], Encoded(items[0]));
    }
  }

  lemma OuterAfter(s: Stream, x: Item, k: nat)
    requires x.List?
    ensures
      var inside := Advance(Inside(s, x), k);
      inside.limits.Within? && Outer(inside) == Advance(s, |Header(0xc0, |EncodedAll(x.items)|)| + k)
  {
    AdvanceTwice(s, |Header(0xc0, |EncodedAll(x.items)|)|, k);
  }

  /** What was taken inside a list, with its header, was taken from the items that start with the list. */
  lemma TookInside(items: seq<Item>, rest: seq<Item>, front: seq<Byte>)
    requires items != [] && items[0].List? && Took(items[0].items, rest, front)
    ensures Took(items, rest + items[1..], Header(0xc0, |EncodedAll(items[0].items)|) + front)
  {
    var payload := EncodedAll(items[0].items);
    var header := Header(0xc0, |payload|);
    EncodedAllConcat(rest, items[1..]);
    Regroup(header, front, EncodedAll(rest), EncodedAll(items[1..]));
    assert Encoded(items[0]) == header + payload;
  }

  lemma Regroup(a: seq<Byte>, b: seq<Byte>, c: seq<Byte>, d: seq<Byte>)
    ensures a + (b + c) + d == (a + b) + (c + d)
    ensures a + (b + c) == (a + b) + c
  {
  }

  lemma MatchesInside(shapes: seq<Tree>, items: seq<Item>)
    requires AllSupported(items) && items != [] && items[0].List?
    ensures Match(Lst(shapes), items) ==
      match MatchAll(shapes, items[0].items)
      case Clash(e) => Clash(e)
      case Left(strings, rest) => Left(strings, rest + items[1..])
  {
  }

  lemma TakesInside(
    strings: seq<seq<Byte>>, s: Stream, items: seq<Item>, rest: seq<Item>, front: seq<Byte>, v: Stream)
    requires items != [] && items[0].List?
    requires Takes(Finished(strings, v), strings, Inside(s, items[0]), items[0].items, rest, front)
    ensures
      var taken := Header(0xc0, |EncodedAll(items[0].items)|) + front;
      v.limits.Within? && Takes(Finished(strings, Outer(v)), strings, s, items, rest + items[1..], taken)
  {
    TookInside(items, rest, front);
    OuterAfter(s, items[0], |front|);
  }

  lemma ListMatches(shapes: seq<Tree>, items: seq<Item>, s: Stream)
    requires AllSupported(items) && Ahead(s, items) && items != [] && items[0].List?
    requires
      var inner := Inside(s, items[0]);
      && inner.pos <= |inner.data|
      && Matches(DriveAll(shapes, inner), MatchAll(shapes, items[0].items), inner, items[0].items)
    ensures Matches(Drive(Lst(shapes), s), Match(Lst(shapes), items), s, items)
  {
    var x, inner := items[0], Inside(s, items[0]);
    SplitItems(items, s);
    ListExactly(x, s);
    DrivesInside(shapes, s, inner);
    MatchesInside(shapes, items);
    var d, m := DriveAll(shapes, inner), MatchAll(shapes, x.items);
    if m.Left? {
      var front :| Takes(d, m.strings, inner, x.items, m.rest, front);
      TakesInside(m.strings, s, items, m.rest, front, d.stream);
    }
  }

  lemma DrivesNext(shapes: seq<Tree>, s: Stream, strings: seq<seq<Byte>>, t: Stream)
    requires shapes != [] && s.pos <= |s.data| && t.pos <= |t.data| && Drive(shapes[0], s) == Finished(strings, t)
    ensures DriveAll(shapes, s) ==
      match DriveAll(shapes[1..], t)
      case Stopped(e) => Stopped(e)
      case Finished(more, v) => Finished(strings + more, v)
  {
  }

  lemma MatchesNext(shapes: seq<Tree>, items: seq<Item>)
    requires AllSupported(items) && shapes != [] && Match(shapes[0], items).Left?
    ensures
      var m := Match(shapes[0], items);
      MatchAll(shapes, items) ==
        match MatchAll(shapes[1..], m.rest)
        case Clash(e) => Clash(e)
        case Left(more, last) => Left(m.strings + more, last)
  {
  }

  lemma TakesNext(
    first: seq<seq<Byte>>, more: seq<seq<Byte>>, s: Stream, items: seq<Item>, middle: seq<Item>, rest: seq<Item>,
    front: seq<Byte>, next: seq<Byte>, v: Stream)
    requires Took(items, middle, front)
    requires Takes(Finished(more, v), more, Advance(s, |front|), middle, rest, next)
    ensures Takes(Finished(first + more, v), first + more, s, items, rest, front + next)
  {
    Regroup(front, next, EncodedAll(rest), []);
    AdvanceTwice(s, |front|, |next|);
  }

  lemma StepMatches(shapes: seq<Tree>, items: seq<Item>, s: Stream, front: seq<Byte>)
    requires AllSupported(items) && s.pos <= |s.data| && s.pos + |front| <= |s.data|
    requires shapes != [] && Match(shapes[0], items).Left?
    requires
      var m, t := Match(shapes[0], items), Advance(s, |front|);
      && Takes(Drive(shapes[0], s), m.strings, s, items, m.rest, front)
      && Matches(DriveAll(shapes[1..], t), MatchAll(shapes[1..], m.rest), t, m.rest)
    ensures Matches(DriveAll(shapes, s), MatchAll(shapes, items), s, items)
  {
    var m, t := Match(shapes[0], items), Advance(s, |front|);
    DrivesNext(shapes, s, m.strings, t);
    MatchesNext(shapes, items);
    var d, more := DriveAll(shapes[1..], t), MatchAll(shapes[1..], m.rest);
    if more.Left? {
      var next :| Takes(d, more.strings, t, m.rest, more.rest, next);
      TakesNext(m.strings, more.strings, s, items, m.rest, more.rest, front, next, d.stream);
    }
  }

  /** An item's own shape takes exactly the item. */
  lemma {:induction false} OwnShapeMatches(x: Item, rest: seq<Item>)
    requires Supported(x) && AllSupported(rest)
    ensures AllSupported([x] + rest) && Match(Canon(x), [x] + rest) == Left(Strings(Canon(x)), rest)
    decreases x, 1
  {
    assert ([x] + rest)[1..] == rest;
    if x.List? {
      OwnShapesMatch(x.items, []);
      assert x.items + [] == x.items && [] + rest == rest;
      MatchesInside(CanonAll(x.items), [x] + rest);
    }
  }

  lemma {:induction false} OwnShapesMatch(items: seq<Item>, rest: seq<Item>)
    requires AllSupported(items) && AllSupported(rest)
    ensures AllSupported(items + rest) && MatchAll(CanonAll(items), items + rest) == Left(StringsOf(CanonAll(items)), rest)
    decreases items, 0
  {
    if items == [] {
      assert items + rest == rest;
    } else {
      var shapes := CanonAll(items);
      assert items + rest == [items[0]] + (items[1..] + rest) && shapes[1..] == CanonAll(items[1..]);
      OwnShapesMatch(items[1..], rest);
      OwnShapeMatches(items[0], items[1..] + rest);
      MatchesNext(shapes, items + rest);
    }
  }

  /** A list that is opened and not read to its end is not skipped: its items come next. So the shape of an
      empty list and a string reads a list that holds a list of one string. */
  lemma UnreadItemsComeNext(data: seq<Byte>, s: Stream)
    requires
      var x := List([List([Bytes(data)])]);
      s.limits.Unlimited? && Holds(s.data, s.pos, Encoded(x)) && s.pos + |Encoded(x)| == |s.data|
    ensures
      var r := Drive(Lst([Lst([]), Str([])]), s);
      r.Finished? && r.strings == [data]
  {
    var x := List([List([Bytes(data)])]);
    assert EncodedAll([x]) == Encoded(x) + EncodedAll([]);
    UnreadItemsMatch(data);
    DriveMatches(Lst([Lst([]), Str([])]), [x], s);
  }

  lemma UnreadItemsMatch(data: seq<Byte>)
    ensures
      var x := List([List([Bytes(data)])]);
      AllSupported([x]) && Match(Lst([Lst([]), Str([])]), [x]) == Left([data], [])
  {
    var a := Bytes(data);
    var y := List([a]);
    var x := List([y]);
    assert AllSupported([a]) && AllSupported([y]) && AllSupported([x]);
    assert MatchAll([], [a]) == Left([], [a]);
    MatchesInside([], [y]);
    assert [a] + [y][1..] == [a];
    assert Match(Lst([]), [y]) == Left([], [a]);
    var shapes := [Lst([]), Str([])];
    MatchesNext(shapes, [y]);
    assert shapes[1..] == [Str([])];
    MatchesNext([Str([])], [a]);
    assert Match(Str([]), [a]) == Left([data], []);
    assert [Str([])][1..] == [] && MatchAll([], []) == Left([], []);
    assert MatchAll(shapes, [y]) == Left([data], []);
    MatchesInside(shapes, [x]);
  }
}
