/** Minimal big-endian integers, as the length fields and the uint64 values of the wire format use them. */
module BigEndian {

  type Byte = b: int | 0 <= b < 256

  const TWO64: int := 0x1_0000_0000_0000_0000

  /** The shortest big-endian form; zero takes one byte. */
  function Minimal(n: nat): (s: seq<Byte>)
    ensures |s| >= 1
  {
    if n < 256 then [n] else Minimal(n / 256) + [n % 256]
  }

  function Value(s: seq<Byte>): nat {
    if s == [] then 0 else Value(s[..|s| - 1]) * 256 + s[|s| - 1]
  }

  /** No superfluous leading zero. */
  predicate Canonical(s: seq<Byte>) {
    |s| == 1 || (|s| > 1 && s[0] != 0)
  }

  lemma {:induction false} MinimalRoundTrip(n: nat)
    ensures Value(Minimal(n)) == n && Canonical(Minimal(n))
  {
    if n >= 256 {
      MinimalRoundTrip(n / 256);
      var s := Minimal(n / 256);
      assert (s + [n % 256])[..|s|] == s;
      if n / 256 < 256 {
        assert s == [n / 256];
      }
    }
  }

  lemma {:induction false} ValuePositive(s: seq<Byte>)
    requires s != [] && s[0] != 0
    ensures Value(s) > 0
  {
    if |s| > 1 {
      ValuePositive(s[..|s| - 1]);
    }
  }

  /** The canonical form of a value is the only one. */
  lemma {:induction false} ValueRoundTrip(s: seq<Byte>)
    requires Canonical(s)
    ensures Minimal(Value(s)) == s
  {
    var front, last := s[..|s| - 1], s[|s| - 1];
    assert s == front + [last];
    if |s| > 1 {
      ValuePositive(front);
      ValueRoundTrip(front);
      assert Value(s) / 256 == Value(front) && Value(s) % 256 == last;
    } else {
      assert front == [];
    }
  }

  lemma {:induction false} LeadingZero(s: seq<Byte>)
    requires s != [] && s[0] == 0
    ensures Value(s) == Value(s[1..])
  {
    if |s| > 1 {
      LeadingZero(s[..|s| - 1]);
      assert s[1..][..|s| - 2] == s[..|s| - 1][1..];
    }
  }

  function Pow256(k: nat): nat {
    if k == 0 then 1 else 256 * Pow256(k - 1)
  }

  lemma {:induction false} ValueBound(s: seq<Byte>)
    ensures Value(s) < Pow256(|s|)
  {
    if s != [] {
      ValueBound(s[..|s| - 1]);
    }
  }

  /** At most eight bytes exactly for a uint64. */
  lemma MinimalLength(n: nat)
    requires n < TWO64
    ensures |Minimal(n)| <= 8
  {
    MinimalLengthBelow(n, 8);
  }

  lemma {:induction false} MinimalLengthBelow(n: nat, k: nat)
    requires 1 <= k && n < Pow256(k)
    ensures |Minimal(n)| <= k
  {
    if n >= 256 {
      assert Pow256(1) == 256;
      assert n / 256 < Pow256(k - 1);
      MinimalLengthBelow(n / 256, k - 1);
    }
  }

  /** Writes `n` into an eight-byte buffer and strips the leading zeros, but for the last byte. */
  method EncodeBigEndian(n: nat) returns (r: seq<Byte>)
    requires n < TWO64
    ensures r == Minimal(n)
  {
    var buf := new Byte[8](_ => 0);
    var m: nat := n;
    for k := 0 to 8
      invariant m * Pow256(k) + Value(buf[8 - k..]) == n
    {
      buf[7 - k] := m % 256;
      PrependByte(m % 256, buf[8 - k..]);
      assert buf[7 - k..] == [m % 256] + buf[8 - k..];
      assert m == m / 256 * 256 + m % 256;
      Distribute(m / 256, m % 256, Pow256(k));
      m := m / 256;
    }
    assert Pow256(8) == TWO64;
    assert buf[0..] == buf[..] && m * TWO64 + Value(buf[..]) == n;
    var i := 0;
    while i < 7 && buf[i] == 0
      invariant i <= 7 && Value(buf[i..]) == n
    {
      LeadingZero(buf[i..]);
      assert buf[i..][1..] == buf[i + 1..];
      i := i + 1;
    }
    r := buf[i..];
    ValueRoundTrip(r);
  }

  lemma Distribute(q: nat, d: nat, p: nat)
    ensures (q * 256 + d) * p == q * (256 * p) + d * p
  {
  }

  lemma {:induction false} PrependByte(b: Byte, s: seq<Byte>)
    ensures Value([b] + s) == b * Pow256(|s|) + Value(s)
  {
    if s == [] {
      assert [b] + s == [b];
    } else {
      PrependByte(b, s[..|s| - 1]);
      assert ([b] + s)[..|s|] == [b] + s[..|s| - 1];
    }
  }

  /** Pads up to eight bytes on the left and reads them back as a signed int. */
  method DecodeBigEndian(lenBytes: seq<Byte>) returns (r: int)
    requires |lenBytes| <= 8
    ensures Value(lenBytes) < TWO64
    ensures r == if Value(lenBytes) < TWO64 / 2 then Value(lenBytes) else Value(lenBytes) - TWO64
  {
    var buf: seq<Byte> := seq(8 - |lenBytes|, _ => 0) + lenBytes;
    var v := 0;
    for i := 0 to 8
      invariant v == Value(buf[..i])
    {
      assert buf[..i + 1][..i] == buf[..i];
      v := v * 256 + buf[i];
    }
    assert buf[..8] == buf;
    ZeroPad(8 - |lenBytes|, lenBytes);
    ValueBound(buf);
    assert Pow256(8) == TWO64;
    r := if v < TWO64 / 2 then v else v - TWO64;
  }

  lemma {:induction false} ZeroPad(k: nat, s: seq<Byte>)
    ensures Value(seq(k, _ => 0) + s) == Value(s)
  {
    if k == 0 {
      assert seq(k, _ => 0) + s == s;
    } else {
      var padded: seq<Byte> := seq(k, _ => 0) + s;
      LeadingZero(padded);
      ZeroPad(k - 1, s);
      assert padded[1..] == seq(k - 1, _ => 0) + s;
    }
  }
}
