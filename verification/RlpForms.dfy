/** The wire format in plain numbers, as Appendix B of the Ethereum Yellow Paper gives it, and the forms
    outside of it that the decoder takes as well. */
module RlpForms {
  import opened BigEndian
  import opened Rlp

  /** A length without leading zeros, in at most eight bytes. */
  ghost predicate LengthField(field: seq<Byte>, len: nat) {
    1 <= |field| <= 8 && field[0] > 0 && Value(field) == len
  }

  lemma MinimalIsField(len: nat)
    requires 0 < len < TWO64
    ensures LengthField(Minimal(len), len)
  {
    MinimalLength(len);
    MinimalRoundTrip(len);
    if Minimal(len) == [0] {
      assert Minimal(len)[..0] == [];
    }
  }

  ghost predicate StringForm(code: seq<Byte>, data: seq<Byte>) {
    if |data| == 1 && data[0] < 128 then code == data
    else if |data| < 56 then code == [128 + |data|] + data
    else exists field :: LengthField(field, |data|) && code == [183 + |field|] + field + data
  }

  ghost predicate ListForm(code: seq<Byte>, payload: seq<Byte>) {
    if |payload| < 56 then code == [192 + |payload|] + payload
    else exists field :: LengthField(field, |payload|) && code == [247 + |field|] + field + payload
  }

  lemma StringIsStandard(data: seq<Byte>)
    requires |data| < INT_LIMIT
    ensures StringForm(EncodedString(data), data)
  {
    if |data| >= 56 {
      MinimalIsField(|data|);
      assert EncodedString(data) == [183 + |Minimal(|data|)|] + Minimal(|data|) + data;
    }
  }

  lemma ListIsStandard(payload: seq<Byte>)
    requires |payload| < INT_LIMIT
    ensures ListForm(Header(0xc0, |payload|) + payload, payload)
  {
    if |payload| >= 56 {
      MinimalIsField(|payload|);
      assert Header(0xc0, |payload|) == [247 + |Minimal(|payload|)|] + Minimal(|payload|);
    }
  }

  /** The code of every item in plain numbers: a list's payload is its items' codes one after the other, and
      anything else is a byte string, a number in as few bytes as it needs and zero in none. */
  lemma {:induction false} EncodingIsStandard(x: Item)
    requires Supported(x) && |Encoded(x)| < INT_LIMIT
    ensures match x
      case Bytes(data) => StringForm(Encoded(x), data)
      case Text(data) => StringForm(Encoded(x), data)
      case Uint(n) =>
        if n == 0 then Encoded(x) == [128] else exists s :: LengthField(s, n) && StringForm(Encoded(x), s)
      case List(items) => ListForm(Encoded(x), EncodedAll(items))
      case Null => Encoded(x) == [128]
  {
    match x
    case Bytes(data) => StringIsStandard(data);
    case Text(data) => StringIsStandard(data);
    case Uint(n) =>
      if n > 0 {
        UintIsString(n);
        MinimalIsField(n);
        StringIsStandard(Minimal(n));
      }
    case List(items) => ListIsStandard(EncodedAll(items));
    case Null =>
  }

  /** The decoder also takes a string with a longer header than it needs: its value is always a slice, even
      where the standard form of the same string would decode to a bare byte or to the empty text. */
  lemma LooseString(data: seq<Byte>, offset: nat, field: seq<Byte>, s: seq<Byte>)
    requires 1 <= |field| <= 8 && Value(field) == |s| && Holds(data, offset, [183 + |field|] + field + s)
    ensures DecodeItem(data, offset) == Done(Slice(s), 1 + |field| + |s|)
  {
    BehindHead(data, offset, [183 + |field|] + field, s);
    LongString(data, offset, field);
  }

  lemma BehindHead(data: seq<Byte>, offset: nat, head: seq<Byte>, s: seq<Byte>)
    requires head != [] && Holds(data, offset, head + s)
    ensures Holds(data, offset, head) && Content(data, offset, |head|, |s|) == Done(Slice(s), |head| + |s|)
  {
    HoldsSplit(data, offset, head, s);
    ContentReads(data, offset, |head|, s);
  }

  lemma LongString(data: seq<Byte>, offset: nat, field: seq<Byte>)
    requires 1 <= |field| <= 8 && Holds(data, offset, [183 + |field|] + field)
    ensures offset < |data| && DecodeItem(data, offset) == Content(data, offset, 1 + |field|, Value(field))
  {
    FieldAt(data, offset, 183 + |field|, field);
    LongKey(data, offset, |field|);
  }

  lemma LongKey(data: seq<Byte>, offset: nat, n: nat)
    requires 1 <= n <= 8 && offset + 1 + n <= |data| && data[offset] == 183 + n
    ensures DecodeItem(data, offset) == Content(data, offset, 1 + n, Value(data[offset + 1..offset + 1 + n]))
  {
  }

  lemma LooseShortString(data: seq<Byte>, offset: nat, s: seq<Byte>)
    requires 1 <= |s| <= 55 && Holds(data, offset, [128 + |s|] + s)
    ensures DecodeItem(data, offset) == Done(Slice(s), 1 + |s|)
  {
    HoldsSplit(data, offset, [128 + |s|], s);
    KeyAt(data, offset, [128 + |s|]);
  }

  /** A list's last item may reach past the end of its payload; the list still reports its own length. */
  lemma LooseList(data: seq<Byte>, offset: nat, s: seq<Byte>)
    requires 2 <= |s| <= 55 && Holds(data, offset, [193, 128 + |s|] + s)
    ensures DecodeItem(data, offset) == Done(Sequence([Slice(s)]), 2)
  {
    assert [193, 128 + |s|] + s == [193] + ([128 + |s|] + s);
    HoldsSplit(data, offset, [193], [128 + |s|] + s);
    KeyAt(data, offset, [193]);
    LooseShortString(data, offset + 1, s);
    assert DecodeItems(data, offset + 1 + (1 + |s|), offset + 2) == Done([], 0);
    assert [Slice(s)] + [] == [Slice(s)];
    assert DecodeItems(data, offset + 1, offset + 2) == Done([Slice(s)], 1 + |s|);
  }

  // Known codes.

  lemma KnownStrings()
    ensures Encoded(Text([100, 111, 103])) == [131, 100, 111, 103]
    ensures Encoded(Text([])) == [128] && Encoded(Bytes([0])) == [0] && Encoded(Bytes([128])) == [129, 128]
    ensures Encoded(Uint(15)) == [15] && Encoded(Uint(1024)) == [130, 4, 0]
  {
    assert Minimal(1024) == [4, 0];
  }

  lemma KnownLists(dog: Item)
    requires dog == Text([100, 111, 103])
    ensures Encoded(List([])) == [192] && Encoded(List([dog])) == [196, 131, 100, 111, 103]
  {
    KnownStrings();
    assert [dog][1..] == [] && EncodedAll([dog]) == Encoded(dog) + EncodedAll([]);
  }

  // What the decoder answers.

  /** The dynamic type of the answer, item by item: the empty text, a bare byte, a slice, or a list whose
      length is the number of items; an empty list comes back as an empty slice. */
  lemma DecodedForm(data: seq<Byte>, offset: nat, x: Item)
    requires Supported(x) && Holds(data, offset, Encoded(x))
    ensures
      var r := DecodeItem(data, offset);
      && r.Done? && r.consumed == |Encoded(x)|
      && match Canon(x)
         case Str(s) =>
           if s == [] then r.value == EmptyText
           else if |s| == 1 && s[0] < 128 then r.value == Single(s[0])
           else r.value == Slice(s)
         case Lst(items) =>
           if items == [] then r.value == Slice([])
           else r.value.Sequence? && |r.value.items| == |items|
  {
    RoundTrip(data, offset, x);
  }

  /** No data, and no data left, are told apart. */
  lemma NothingToDecode(data: seq<Byte>, offset: nat)
    ensures DecodeItem(data, offset) == Failed(EmptyData) <==> data == []
    ensures data != [] && offset >= |data| ==> DecodeItem(data, offset) == Failed(OutOfBounds)
  {
    if data != [] {
      NeverEmpty(data, offset);
    }
  }

  lemma {:induction false} NeverEmpty(data: seq<Byte>, offset: nat)
    requires data != []
    ensures DecodeItem(data, offset) != Failed(EmptyData)
    decreases |data| - offset, 0
  {
    if offset < |data| {
      var key := data[offset];
      if 0xc0 < key <= 0xf7 {
        NeverEmptyItems(data, offset + 1, offset + 1 + (key - 0xc0));
      } else if key > 0xf7 && offset + 1 + (key - 0xf7) <= |data| {
        var n := key - 0xf7;
        var start := offset + 1 + n;
        NeverEmptyItems(data, start, start + Value(data[offset + 1..start]));
      }
    }
  }

  lemma {:induction false} NeverEmptyItems(data: seq<Byte>, pos: nat, end: nat)
    requires data != []
    ensures DecodeItems(data, pos, end) != Failed(EmptyData)
    decreases if pos < |data| then |data| - pos else 0, 1
  {
    if pos < end {
      NeverEmpty(data, pos);
      var r := DecodeItem(data, pos);
      if r.Done? {
        NeverEmptyItems(data, pos + r.consumed, end);
      }
    }
  }

  /** On any data: what is reported as consumed lies within the data. */
  lemma {:induction false} ConsumesWithin(data: seq<Byte>, offset: nat)
    requires DecodeItem(data, offset).Done?
    ensures offset + DecodeItem(data, offset).consumed <= |data|
    decreases |data| - offset, 0
  {
    var key := data[offset];
    if 0xc0 < key <= 0xf7 {
      ItemsWithin(data, offset + 1, offset + 1 + (key - 0xc0));
    } else if key > 0xf7 {
      var start := offset + 1 + (key - 0xf7);
      ItemsWithin(data, start, start + Value(data[offset + 1..start]));
    }
  }

  lemma {:induction false} ItemsWithin(data: seq<Byte>, pos: nat, end: nat)
    requires pos <= |data| && DecodeItems(data, pos, end).Done?
    ensures end <= |data| || pos >= end
    decreases |data| - pos, 1
  {
    if pos < end {
      ConsumesWithin(data, pos);
      ItemsWithin(data, pos + DecodeItem(data, pos).consumed, end);
    }
  }

  /** What has been decoded once is decoded the same with more data behind it. */
  lemma {:induction false} MoreBehind(data: seq<Byte>, more: seq<Byte>, offset: nat)
    requires DecodeItem(data, offset).Done?
    ensures DecodeItem(data + more, offset) == DecodeItem(data, offset)
    decreases |data| - offset, 1
  {
    if data[offset] <= 0xbf {
      StringMore(data, more, offset);
    } else {
      ListMore(data, more, offset);
    }
  }

  lemma StringMore(data: seq<Byte>, more: seq<Byte>, offset: nat)
    requires DecodeItem(data, offset).Done? && data[offset] <= 0xbf
    ensures DecodeItem(data + more, offset) == DecodeItem(data, offset)
  {
    var key := data[offset];
    assert (data + more)[offset] == key;
    if 0x80 < key <= 0xb7 {
      ContentMore(data, more, offset, 1, key - 0x80);
    } else if 0xb7 < key {
      FieldMore(data, more, offset, key - 0xb7);
      ContentMore(data, more, offset, 1 + (key - 0xb7), Value(data[offset + 1..offset + 1 + (key - 0xb7)]));
    }
  }

  lemma FieldMore(data: seq<Byte>, more: seq<Byte>, offset: nat, n: nat)
    requires offset + 1 + n <= |data|
    ensures (data + more)[offset + 1..offset + 1 + n] == data[offset + 1..offset + 1 + n]
  {
  }

  lemma {:induction false} ListMore(data: seq<Byte>, more: seq<Byte>, offset: nat)
    requires DecodeItem(data, offset).Done? && data[offset] > 0xbf
    ensures DecodeItem(data + more, offset) == DecodeItem(data, offset)
    decreases |data| - offset, 0
  {
    var key := data[offset];
    assert (data + more)[offset] == key;
    if 0xc0 < key <= 0xf7 {
      ItemsMore(data, more, offset + 1, offset + 1 + (key - 0xc0));
    } else if key > 0xf7 {
      var start := offset + 1 + (key - 0xf7);
      FieldMore(data, more, offset, key - 0xf7);
      ItemsMore(data, more, start, start + Value(data[offset + 1..start]));
    }
  }

  lemma ContentMore(data: seq<Byte>, more: seq<Byte>, offset: nat, head: nat, len: nat)
    requires 1 <= head && offset < |data| && Content(data, offset, head, len).Done?
    ensures Content(data + more, offset, head, len) == Content(data, offset, head, len)
  {
    assert (data + more)[offset + head..offset + head + len] == data[offset + head..offset + head + len];
  }

  lemma {:induction false} ItemsMore(data: seq<Byte>, more: seq<Byte>, pos: nat, end: nat)
    requires DecodeItems(data, pos, end).Done?
    ensures DecodeItems(data + more, pos, end) == DecodeItems(data, pos, end)
    decreases if pos < |data| then |data| - pos else 0, 2
  {
    if pos < end {
      MoreBehind(data, more, pos);
      ItemsMore(data, more, pos + DecodeItem(data, pos).consumed, end);
    }
  }

  /** An encoding that breaks off anywhere is never taken for an item. */
  lemma TruncatedIsRefused(x: Item, n: nat)
    requires Supported(x) && |Encoded(x)| < INT_LIMIT && n < |Encoded(x)|
    ensures !DecodeItem(Encoded(x)[..n], 0).Done?
  {
    var code := Encoded(x);
    if DecodeItem(code[..n], 0).Done? {
      ConsumesWithin(code[..n], 0);
      MoreBehind(code[..n], code[n..], 0);
      assert code[..n] + code[n..] == code;
      RoundTrip(code, 0, x);
    }
  }
}
