/** The BER codec of main.go: tag-length-value triples, lengths and non-negative integers. */
module Ber {
  import opened Wrappers
  import opened Octets

  // ---- base-256 digits ----

  /** The big-endian base-256 digits of n without leading zeros; none for 0. */
  function Digits(n: nat): (b: Octets) {
    if n == 0 then [] else Digits(n / 256) + [n % 256]
  }

  lemma {:induction false} DigitsValue(n: nat)
    ensures BigEndian(Digits(n)) == n
    ensures n > 0 ==> Digits(n) != [] && Digits(n)[0] != 0
  {
    if n > 0 {
      DigitsValue(n / 256);
      assert Digits(n)[..|Digits(n)| - 1] == Digits(n / 256);
    }
  }

  /** n has at most k digits exactly when it is below 256 to the k. */
  lemma {:induction false} DigitsCount(n: nat, k: nat)
    ensures |Digits(n)| <= k <==> n < Pow256(k)
  {
    if n > 0 && k > 0 {
      DigitsCount(n / 256, k - 1);
    }
  }

  lemma {:induction false} BigEndianInjective(a: Octets, b: Octets)
    requires |a| == |b| && BigEndian(a) == BigEndian(b)
    ensures a == b
  {
    if a != [] {
      var (a', b') := (a[..|a| - 1], b[..|b| - 1]);
      SplitDigit(BigEndian(a'), a[|a| - 1], BigEndian(b'), b[|b| - 1]);
      BigEndianInjective(a', b');
      assert a == a' + [a[|a| - 1]] && b == b' + [b[|b| - 1]];
    }
  }

  lemma SplitDigit(m: nat, c: Octet, n: nat, d: Octet)
    requires m * 256 + c == n * 256 + d
    ensures m == n && c == d
  {
  }

  /** The loops below peel the last digit off what is left and put it in front. */
  lemma PeelDigit(n: nat, m: nat, b: Octets)
    requires m > 0 && Digits(n) == Digits(m) + b
    ensures Digits(n) == Digits(m / 256) + ([m % 256] + b)
  {
  }

  lemma FourDigits()
    ensures Pow256(4) == 0x1_0000_0000
  {
    assert Pow256(1) == 256;
    assert Pow256(2) == 0x1_0000;
    assert Pow256(3) == 0x100_0000;
  }

  // ---- lengths ----

  /** 0x80 | byte(k). */
  function WithHighBit(k: nat): (b: Octet) {
    var low := k % 256;
    if low >= 0x80 then low else low + 0x80
  }

  function LengthBytes(n: nat): (b: Octets) {
    if n < 0x80 then [n] else [WithHighBit(|Digits(n)|)] + Digits(n)
  }

  method Asn1Len(n: nat) returns (b: Octets)
    ensures b == LengthBytes(n)
  {
    if n < 0x80 {
      return [n];
    }
    b := [];
    var m := n;
    while m > 0
      invariant Digits(n) == Digits(m) + b
    {
      PeelDigit(n, m, b);
      b := [m % 256] + b;
      m := m / 256;
    }
    b := [WithHighBit(|b|)] + b;
  }

  // ---- tag, length, value ----

  datatype Triple = Triple(tag: Octet, content: Octets, rest: Octets)

  function TLV(tag: Octet, content: Octets): (b: Octets) {
    [tag] + LengthBytes(|content|) + content
  }

  method Asn1TLV(tag: Octet, content: Octets) returns (b: Octets)
    ensures b == TLV(tag, content)
  {
    var len := Asn1Len(|content|);
    b := [tag] + len + content;
  }

  datatype Length = Length(value: nat, size: nat)

  /** The length field at the start of b: its value and its own size. */
  function ReadLength(b: Octets): (r: Option<Length>)
    ensures r.Some? ==> 1 <= r.value.size <= 5 && r.value.size <= |b|
  {
    if b == [] then None
    else if b[0] < 0x80 then Some(Length(b[0], 1))
    else
      var count := b[0] - 0x80;
      if count == 0 || count > 4 || |b| < 1 + count then None
      else Some(Length(BigEndian(b[1..1 + count]), 1 + count))
  }

  /** The first triple of b and what follows it. */
  function Read(b: Octets): (r: Option<Triple>)
    ensures r.Some? ==> |r.value.rest| + |r.value.content| + 2 <= |b|
  {
    if |b| < 2 then None
    else
      match ReadLength(b[1..])
      case None => None
      case Some(len) =>
        var start := 1 + len.size;
        if |b| < start + len.value then None
        else Some(Triple(b[0], b[start..start + len.value], b[start + len.value..]))
  }

  method ReadTLV(b: Octets) returns (tag: Octet, content: Octets, rest: Octets, ok: bool)
    ensures Read(b) == if ok then Some(Triple(tag, content, rest)) else None
  {
    if |b| < 2 {
      return 0, [], [], false;
    }
    tag := b[0];
    var length: int := b[1];
    var idx := 2;
    if length >= 0x80 {
      var count := length - 0x80;
      if count == 0 || count > 4 || |b| < 2 + count {
        return 0, [], [], false;
      }
      length := 0;
      for j := 0 to count
        invariant length == BigEndian(b[2..2 + j])
      {
        assert b[2..2 + j + 1][..j] == b[2..2 + j];
        length := length * 256 + b[2 + j];
      }
      assert b[1..][1..1 + count] == b[2..2 + count];
      idx := 2 + count;
    }
    if |b| < idx + length {
      return 0, [], [], false;
    }
    return tag, b[idx..idx + length], b[idx + length..], true;
  }

  // ---- what the codec is for ----

  lemma HighBitOfShort(k: nat)
    requires k < 0x80
    ensures WithHighBit(k) == 0x80 + k
  {
  }

  lemma LongLengthReads(d: Octets, more: Octets)
    requires 1 <= |d| <= 4
    ensures ReadLength([WithHighBit(|d|)] + d + more) == Some(Length(BigEndian(d), 1 + |d|))
  {
    HighBitOfShort(|d|);
    hide BigEndian, WithHighBit;
    var b := [WithHighBit(|d|)] + d + more;
    assert b[0] == 0x80 + |d| && b[1..1 + |d|] == d;
  }

  lemma DigitsOfLength(n: nat)
    requires 0 < n < 0x1_0000_0000
    ensures 1 <= |Digits(n)| <= 4 && BigEndian(Digits(n)) == n
  {
    FourDigits();
    DigitsCount(n, 4);
    DigitsValue(n);
  }

  lemma LengthReads(n: nat, more: Octets)
    requires n < 0x1_0000_0000
    ensures ReadLength(LengthBytes(n) + more) == Some(Length(n, |LengthBytes(n)|))
  {
    if n >= 0x80 {
      DigitsOfLength(n);
      hide Digits, BigEndian, ReadLength, WithHighBit;
      LongLengthReads(Digits(n), more);
    }
  }

  lemma LengthBelow(b: Octets)
    ensures ReadLength(b).Some? ==> ReadLength(b).value.value < 0x1_0000_0000
  {
    if ReadLength(b).Some? && b[0] >= 0x80 {
      var digits := b[1..1 + (b[0] - 0x80)];
      BigEndianBound(digits);
      Pow256Monotone(|digits|, 4);
      FourDigits();
    }
  }

  lemma {:induction false} Pow256Monotone(j: nat, k: nat)
    requires j <= k
    ensures Pow256(j) <= Pow256(k)
  {
    if j < k {
      Pow256Monotone(j, k - 1);
    }
  }

  /** Reading undoes writing, for contents of less than four gigabytes and for no others. */
  lemma ReadUndoesTLV(tag: Octet, content: Octets, rest: Octets)
    ensures Read(TLV(tag, content) + rest) == Some(Triple(tag, content, rest)) <==> |content| < 0x1_0000_0000
  {
    var b := TLV(tag, content) + rest;
    var len := LengthBytes(|content|);
    assert b[1..] == len + (content + rest);
    if |content| < 0x1_0000_0000 {
      LengthReads(|content|, content + rest);
      hide LengthBytes, ReadLength;
      assert b == [tag] + len + content + rest;
      assert b[1 + |len|..1 + |len| + |content|] == content;
      assert b[1 + |len| + |content|..] == rest;
    } else {
      LengthBelow(b[1..]);
    }
  }

  lemma LengthFieldReads(b: Octets)
    requires ReadLength(b).Some?
    ensures ReadLength(b[..ReadLength(b).value.size]) == ReadLength(b)
  {
    hide BigEndian;
    var len := b[..ReadLength(b).value.size];
    assert len[0] == b[0] && len[1..|len|] == b[1..|len|];
  }

  /** The triple t stands in b, with the length field len. */
  predicate IsWritten(b: Octets, t: Triple, len: Octets) {
    b == [t.tag] + len + t.content + t.rest && ReadLength(len) == Some(Length(|t.content|, |len|))
  }

  /** What is read was there: a tag, a length field for the content, the content, the rest. */
  lemma ReadIsThere(b: Octets)
    requires Read(b).Some?
    ensures exists len: Octets :: IsWritten(b, Read(b).value, len)
  {
    var t := Read(b).value;
    var size := ReadLength(b[1..]).value.size;
    LengthFieldReads(b[1..]);
    hide ReadLength;
    FourParts(b, 1 + size, 1 + size + |t.content|);
    assert IsWritten(b, t, b[1..][..size]);
  }

  lemma FourParts(b: Octets, i: nat, j: nat)
    requires 1 <= i <= j <= |b|
    ensures b == [b[0]] + b[1..][..i - 1] + b[i..j] + b[j..]
  {
  }

  /** No length field that is read as n is shorter than the one written for n. */
  lemma LengthIsMinimal(b: Octets)
    requires ReadLength(b).Some?
    ensures |LengthBytes(ReadLength(b).value.value)| <= ReadLength(b).value.size
  {
    var len := ReadLength(b).value;
    if b[0] >= 0x80 {
      BigEndianBound(b[1..len.size]);
      DigitsCount(len.value, len.size - 1);
    }
  }

  // ---- integers ----

  function IntBytes(v: nat): (b: Octets) {
    if v == 0 then [0]
    else
      var d := Digits(v);
      DigitsValue(v);
      if d[0] >= 0x80 then [0] + d else d
  }

  /** The loop of asn1Int; for a negative v it does not run. */
  method IntDigits(v: int) returns (b: Octets)
    ensures b == if v < 0 then [] else Digits(v)
  {
    b := [];
    var x := v;
    while x > 0
      invariant v < 0 ==> x == v && b == []
      invariant v >= 0 ==> x >= 0 && Digits(v) == Digits(x) + b
    {
      PeelDigit(v, x, b);
      b := [x % 256] + b;
      x := x / 256;
    }
  }

  /** None stands for the panic: for a negative v no digit is written, and the source looks at the first. */
  method Asn1Int(v: int) returns (r: Option<Octets>)
    ensures r == if v < 0 then None else Some(TLV(0x02, IntBytes(v)))
  {
    hide TLV;
    if v == 0 {
      assert IntBytes(v) == [0x00];
      var zero := Asn1TLV(0x02, [0x00]);
      return Some(zero);
    }
    var b := IntDigits(v);
    if |b| == 0 {
      if v > 0 {
        DigitsValue(v);
      }
      return None;
    }
    if b[0] >= 0x80 {
      b := [0x00] + b;
    }
    assert b == IntBytes(v);
    var number := Asn1TLV(0x02, b);
    r := Some(number);
  }

  /** The integer a BER INTEGER's content stands for. */
  function TwosComplement(b: Octets): (v: int)
    requires b != []
  {
    BigEndian(b) - if b[0] >= 0x80 then Pow256(|b|) else 0
  }

  lemma {:induction false} BigEndianZero(b: Octets)
    ensures BigEndian([0] + b) == BigEndian(b)
  {
    if b != [] {
      BigEndianZero(b[..|b| - 1]);
      assert ([0] + b)[..|b|] == [0] + b[..|b| - 1];
    }
  }

  lemma IntRoundTrip(v: nat)
    ensures IntBytes(v) != [] && TwosComplement(IntBytes(v)) == v
  {
    DigitsValue(v);
    BigEndianZero(Digits(v));
  }

  /** A first digit below 0x80 costs the number its top bit. */
  lemma {:induction false} BigEndianBoundLow(b: Octets)
    requires b != [] && b[0] < 0x80
    ensures BigEndian(b) * 2 < Pow256(|b|)
  {
    if |b| == 1 {
      assert b[..0] == [] && BigEndian([]) == 0 && Pow256(0) == 1;
    } else {
      BigEndianBoundLow(b[..|b| - 1]);
    }
  }

  lemma {:induction false} BigEndianBoundHigh(b: Octets)
    requires b != [] && b[0] >= 0x80
    ensures BigEndian(b) * 2 >= Pow256(|b|)
  {
    if |b| == 1 {
      assert b[..0] == [] && BigEndian([]) == 0 && Pow256(0) == 1;
    } else {
      BigEndianBoundHigh(b[..|b| - 1]);
    }
  }

  /** No other two's-complement encoding of v is as short. */
  lemma IntIsMinimal(b: Octets, v: nat)
    requires b != [] && TwosComplement(b) == v
    ensures |IntBytes(v)| <= |b| && (|IntBytes(v)| == |b| ==> IntBytes(v) == b)
  {
    BigEndianBound(b);
    assert b[0] < 0x80 && BigEndian(b) == v;
    DigitsCount(v, |b|);
    DigitsValue(v);
    IntRoundTrip(v);
    var d := Digits(v);
    if v > 0 && d[0] >= 0x80 {
      BigEndianBoundHigh(d);
      BigEndianBoundLow(b);
      if |b| <= |d| {
        Pow256Monotone(|b|, |d|);
      }
    }
    BigEndianZero(d);
    if |IntBytes(v)| == |b| {
      BigEndianInjective(IntBytes(v), b);
    }
  }
}
