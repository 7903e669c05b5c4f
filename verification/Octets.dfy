/** Bytes, byte strings and the integer encodings the wire formats share. */
module Octets {

  type Octet = b: int | 0 <= b < 256

  type Octets = seq<Octet>

  // ---- big-endian and little-endian integers ----

  /** The integer a big-endian byte string stands for. */
  function BigEndian(b: Octets): (n: nat) {
    if b == [] then 0 else BigEndian(b[..|b| - 1]) * 256 + b[|b| - 1]
  }

  function Pow256(k: nat): (p: nat)
    ensures p >= 1
  {
    if k == 0 then 1 else 256 * Pow256(k - 1)
  }

  lemma {:induction false} BigEndianBound(b: Octets)
    ensures BigEndian(b) < Pow256(|b|)
  {
    if b != [] {
      BigEndianBound(b[..|b| - 1]);
    }
  }

  function Big16(n: nat): (b: Octets)
    requires n < 0x1_0000
  {
    [n / 256, n % 256]
  }

  function Big32(n: nat): (b: Octets)
    requires n < 0x1_0000_0000
  {
    Big16(n / 0x1_0000) + Big16(n % 0x1_0000)
  }

  function Little16(n: nat): (b: Octets)
    requires n < 0x1_0000
    ensures |b| == 2
  {
    [n % 256, n / 256]
  }

  function Little32(n: nat): (b: Octets)
    requires n < 0x1_0000_0000
    ensures |b| == 4
  {
    Little16(n % 0x1_0000) + Little16(n / 0x1_0000)
  }

  /** The 16-bit big-endian integer at position i. */
  function Big16At(b: Octets, i: nat): (n: nat)
    requires i + 2 <= |b|
    ensures n < 0x1_0000
  {
    (b[i] as int) * 256 + b[i + 1]
  }

  function Big32At(b: Octets, i: nat): (n: nat)
    requires i + 4 <= |b|
    ensures n < 0x1_0000_0000
  {
    Big16At(b, i) * 0x1_0000 + Big16At(b, i + 2)
  }

  function Little16At(b: Octets, i: nat): (n: nat)
    requires i + 2 <= |b|
    ensures n < 0x1_0000
  {
    b[i] + (b[i + 1] as int) * 256
  }

  function Little32At(b: Octets, i: nat): (n: nat)
    requires i + 4 <= |b|
    ensures n < 0x1_0000_0000
  {
    Little16At(b, i) + Little16At(b, i + 2) * 0x1_0000
  }

  /** What the integers at a position are: the bytes in network order, or in the opposite order. */
  lemma IntegersAt(b: Octets, i: nat)
    requires i + 4 <= |b|
    ensures Big16At(b, i) == BigEndian([b[i], b[i + 1]]) && Little16At(b, i) == BigEndian([b[i + 1], b[i]])
    ensures Big32At(b, i) == BigEndian([b[i], b[i + 1], b[i + 2], b[i + 3]])
    ensures Little32At(b, i) == BigEndian([b[i + 3], b[i + 2], b[i + 1], b[i]])
  {
    FourBytes(b[i], b[i + 1], b[i + 2], b[i + 3]);
    FourBytes(b[i + 3], b[i + 2], b[i + 1], b[i]);
    hide BigEndian;
  }

  lemma FourBytes(a: Octet, b: Octet, c: Octet, d: Octet)
    ensures BigEndian([a, b]) == a * 256 + b && BigEndian([c, d]) == c * 256 + d
    ensures BigEndian([a, b, c, d]) == a * 0x100_0000 + b * 0x1_0000 + c * 256 + d
  {
    assert [a][..0] == [] && [c][..0] == [] && [a, b][..1] == [a] && [c, d][..1] == [c];
    assert BigEndian([a]) == a && BigEndian([c]) == c;
    assert [a, b, c, d][..3] == [a, b, c] && [a, b, c][..2] == [a, b];
    assert BigEndian([a, b, c]) == BigEndian([a, b]) * 256 + c;
  }

  /** And what is written for an integer. */
  lemma IntegersWritten(n: nat)
    ensures n < 0x1_0000 ==> BigEndian(Big16(n)) == n && Little16(n) == [Big16(n)[1], Big16(n)[0]]
    ensures n < 0x1_0000_0000 ==>
              && BigEndian(Big32(n)) == n
              && Little32(n) == [Big32(n)[3], Big32(n)[2], Big32(n)[1], Big32(n)[0]]
  {
    if n < 0x1_0000 {
      FourBytes(n / 256, n % 256, 0, 0);
    }
    if n < 0x1_0000_0000 {
      var high, low := n / 0x1_0000, n % 0x1_0000;
      FourBytes(high / 256, high % 256, low / 256, low % 256);
      assert Big32(n) == [high / 256, high % 256, low / 256, low % 256];
    }
    hide BigEndian;
  }

  /** `part` stands in `b` at position i. */
  predicate StandsAt(b: Octets, i: nat, part: Octets) {
    i + |part| <= |b| && b[i..i + |part|] == part
  }

  /** A concatenation stands at i exactly when its two parts stand one after the other. */
  lemma StandsAtConcat(b: Octets, i: nat, first: Octets, second: Octets)
    ensures StandsAt(b, i, first + second) <==> StandsAt(b, i, first) && StandsAt(b, i + |first|, second)
  {
    var both := first + second;
    if i + |both| <= |b| {
      assert b[i..i + |both|] == b[i..i + |first|] + b[i + |first|..i + |both|];
      if StandsAt(b, i, both) {
        assert b[i..i + |first|] == both[..|first|] == first;
        assert b[i + |first|..i + |both|] == both[|first|..] == second;
      }
    }
  }

  // ---- text helpers ----

  /** ASCII white space: tab, newline, vertical tab, form feed, carriage return, space. */
  predicate IsSpace(c: Octet) {
    9 <= c <= 13 || c == 32
  }

  function TrimLeft(s: Octets): (t: Octets) {
    if s != [] && IsSpace(s[0]) then TrimLeft(s[1..]) else s
  }

  function TrimRight(s: Octets): (t: Octets) {
    if s != [] && IsSpace(s[|s| - 1]) then TrimRight(s[..|s| - 1]) else s
  }

  /** strings.TrimSpace on ASCII text. */
  function TrimSpace(s: Octets): (t: Octets) {
    TrimRight(TrimLeft(s))
  }

  lemma TrimRightKeepsHead(s: Octets)
    requires s != [] && !IsSpace(s[0])
    ensures TrimRight(s) != [] && TrimRight(s)[0] == s[0]
  {
    if IsSpace(s[|s| - 1]) {
      TrimRightKeepsHead(s[..|s| - 1]);
    }
  }

  lemma TrimLeftHead(s: Octets)
    ensures TrimLeft(s) == [] || !IsSpace(TrimLeft(s)[0])
  {
  }

  lemma TrimRightLast(s: Octets)
    ensures TrimRight(s) == [] || !IsSpace(TrimRight(s)[|TrimRight(s)| - 1])
  {
  }

  lemma TrimSpaceIdempotent(s: Octets)
    ensures TrimSpace(TrimSpace(s)) == TrimSpace(s)
  {
    var l := TrimLeft(s);
    TrimLeftHead(s);
    if l != [] {
      TrimRightKeepsHead(l);
    }
    TrimRightLast(l);
  }

  // ---- splitting and joining on a separator ----

  /** strings.Join(parts, sep) for a one-byte separator. */
  function Join(parts: seq<Octets>, sep: Octet): (s: Octets) {
    if |parts| == 0 then []
    else if |parts| == 1 then parts[0]
    else parts[0] + [sep] + Join(parts[1..], sep)
  }

  /** strings.Split(s, sep) for a one-byte separator: never empty. */
  function Split(s: Octets, sep: Octet): (parts: seq<Octets>)
    ensures |parts| >= 1
  {
    if s == [] then [[]]
    else
      var rest := Split(s[1..], sep);
      if s[0] == sep then [[]] + rest else [[s[0]] + rest[0]] + rest[1..]
  }

  lemma {:induction false} JoinSplit(s: Octets, sep: Octet)
    ensures Join(Split(s, sep), sep) == s
  {
    if s != [] {
      JoinSplit(s[1..], sep);
      var rest := Split(s[1..], sep);
      if s[0] == sep {
        assert ([[]] + rest)[1..] == rest;
      } else if |rest| > 1 {
        assert ([[s[0]] + rest[0]] + rest[1..])[1..] == rest[1..];
      }
    }
  }

  /** Splitting undoes joining for parts that do not contain the separator. */
  lemma {:induction false} SplitJoin(parts: seq<Octets>, sep: Octet)
    requires |parts| >= 1 && forall p | p in parts :: sep !in p
    ensures Split(Join(parts, sep), sep) == parts
    decreases |Join(parts, sep)|
  {
    var s := Join(parts, sep);
    var p := parts[0];
    if |parts| == 1 {
      if p != [] {
        var shorter := [p[1..]];
        assert p == [p[0]] + p[1..] && sep !in p;
        assert Join(shorter, sep) == s[1..];
        SplitJoin(shorter, sep);
      }
    } else if p == [] {
      assert s[1..] == Join(parts[1..], sep);
      SplitJoin(parts[1..], sep);
    } else {
      var shorter := [p[1..]] + parts[1..];
      assert shorter[1..] == parts[1..];
      assert Join(shorter, sep) == s[1..];
      assert p == [p[0]] + p[1..] && sep !in p && p[0] != sep;
      forall q | q in shorter ensures sep !in q {
        if q != p[1..] {
          assert q in parts;
        }
      }
      SplitJoin(shorter, sep);
      assert parts == [[p[0]] + shorter[0]] + shorter[1..];
    }
  }

  lemma JoinCons(head: Octets, tail: seq<Octets>, sep: Octet)
    ensures Join([head] + tail, sep) == if tail == [] then head else head + [sep] + Join(tail, sep)
  {
    assert ([head] + tail)[1..] == tail;
  }

  /** A joined group of parts may be joined again as one part. */
  lemma {:induction false} JoinNested(parts: seq<Octets>, group: seq<Octets>, sep: Octet)
    requires group != []
    ensures Join(parts + [Join(group, sep)], sep) == Join(parts + group, sep)
  {
    if parts == [] {
      assert parts + group == group;
    } else {
      JoinNested(parts[1..], group, sep);
      assert parts + [Join(group, sep)] == [parts[0]] + (parts[1..] + [Join(group, sep)]);
      assert parts + group == [parts[0]] + (parts[1..] + group);
      JoinCons(parts[0], parts[1..] + [Join(group, sep)], sep);
      JoinCons(parts[0], parts[1..] + group, sep);
    }
  }

  /** No two parts vanish in a join: it is empty only for no parts or one empty part. */
  lemma JoinEmpty(parts: seq<Octets>, sep: Octet)
    requires forall p | p in parts :: p != []
    ensures Join(parts, sep) == [] <==> parts == []
  {
    if |parts| > 1 {
      assert |Join(parts, sep)| == |parts[0]| + 1 + |Join(parts[1..], sep)|;
    } else if |parts| == 1 {
      assert parts[0] in parts;
    }
  }
}
