/**
 * The SMB part of main.go: Direct-TCP framing (section 2.1 of MS-SMB2) and the computer name in an
 * NTLM CHALLENGE (sections 2.2.1.2 and 2.2.2.1 of MS-NLMP). `decode` turns UTF-16 code units into
 * text and `sanitize` stands for sanitizeOneLine.
 */
module Smb {
  import opened Wrappers
  import opened Octets

  // ---- Direct-TCP framing ----

  /** frameDirectTCP: the length is cut down to 24 bits. */
  function Frame(payload: Octets): (b: Octets) {
    var n := |payload|;
    [0, n / 0x1_0000 % 256, n / 256 % 256, n % 256] + payload
  }

  function Big24At(b: Octets, i: nat): (n: nat)
    requires i + 3 <= |b|
  {
    (b[i] as int) * 0x1_0000 + (b[i + 1] as int) * 256 + b[i + 2]
  }

  datatype Message = Message(payload: Octets, rest: Octets)

  /** One message off the front of a stream. */
  function Unframe(stream: Octets): (r: Option<Message>) {
    if |stream| < 4 then None
    else
      var length := Big24At(stream, 1);
      if length == 0 || length > 65535 || |stream| < 4 + length then None
      else Some(Message(stream[4..4 + length], stream[4 + length..]))
  }

  method FrameDirectTCP(payload: Octets) returns (out: array<Octet>)
    ensures fresh(out) && out[..] == Frame(payload)
  {
    var n := |payload|;
    out := new Octet[4 + n](_ => 0);
    out[1], out[2], out[3] := n / 0x1_0000 % 256, n / 256 % 256, n % 256;
    forall i | 0 <= i < n {
      out[4 + i] := payload[i];
    }
  }

  /** readSMB2; None stands for its errors: a short stream or an invalid length. */
  method ReadSMB2(stream: Octets) returns (r: Option<Message>)
    ensures r == Unframe(stream)
  {
    if |stream| < 4 {
      return None;
    }
    var length := Big24At(stream, 1);
    if length <= 0 || length > 65535 {
      return None;
    }
    if |stream| - 4 < length {
      return None;
    }
    return Some(Message(stream[4..4 + length], stream[4 + length..]));
  }

  /** A frame is the length in four big-endian bytes, of which the first is 0, and the payload. */
  lemma FrameLength(payload: Octets)
    ensures Frame(payload)[0] == 0 && BigEndian(Frame(payload)[..4]) == |payload| % 0x100_0000
    ensures Frame(payload)[4..] == payload
  {
    var n := |payload|;
    var b := Frame(payload)[..4];
    assert b == [0, n / 0x1_0000 % 256, n / 256 % 256, n % 256];
    assert b[..3] == [0, n / 0x1_0000 % 256, n / 256 % 256] && b[..3][..2] == [0, n / 0x1_0000 % 256];
    assert b[..3][..2][..1] == [0] && b[..3][..2][..1][..0] == [];
    assert BigEndian([0]) == 0 && BigEndian(b[..3][..2]) == n / 0x1_0000 % 256;
    assert BigEndian(b[..3]) == n / 0x1_0000 % 256 * 256 + n / 256 % 256;
    ThreeBytes(n);
  }

  lemma ThreeBytes(n: nat)
    ensures n / 0x1_0000 % 256 * 0x1_0000 + n / 256 % 256 * 256 + n % 256 == n % 0x100_0000
  {
    var high := n / 0x1_0000;
    DivTwice(n);
    var low := high % 256 * 0x1_0000 + n / 256 % 256 * 256 + n % 256;
    assert n == 0x100_0000 * (high / 256) + low;
    Remainder(n, high / 256, low);
  }

  lemma DivTwice(n: nat)
    ensures n / 0x1_0000 == n / 256 / 256
  {
  }

  lemma Remainder(n: nat, q: nat, low: nat)
    requires n == 0x100_0000 * q + low && low < 0x100_0000
    ensures n % 0x100_0000 == low
  {
  }

  /**
   * Reading a framed message gives it back, whole and alone, exactly for 1 to 65535 bytes; the first
   * byte of the header does not matter.
   */
  lemma UnframeUndoesFrame(first: Octet, payload: Octets, rest: Octets)
    ensures Unframe([first] + Frame(payload)[1..] + rest) == Some(Message(payload, rest)) <==> 1 <= |payload| <= 65535
  {
    var n := |payload|;
    var b := [first] + Frame(payload)[1..] + rest;
    assert |b| == 4 + n + |rest|;
    assert b[4..4 + n] == payload && b[4 + n..] == rest;
    assert b[1] == n / 0x1_0000 % 256 && b[2] == n / 256 % 256 && b[3] == n % 256;
    ThreeBytes(n);
    assert Big24At(b, 1) == n % 0x100_0000;
    hide Frame, Big24At;
    if n <= 65535 {
      assert n % 0x100_0000 == n;
    }
  }

  // ---- NTLM challenges ----

  /** "NTLMSSP" and a zero byte. */
  const SIGNATURE: Octets := [78, 84, 76, 77, 83, 83, 80, 0]

  const NB_COMPUTER_NAME := 1
  const DNS_COMPUTER_NAME := 3

  /** bytes.Index. */
  function Find(b: Octets, part: Octets): (i: int)
    ensures -1 <= i
    ensures i >= 0 ==> StandsAt(b, i, part) && forall k | 0 <= k < i :: !StandsAt(b, k, part)
    ensures i < 0 ==> forall k: nat :: !StandsAt(b, k, part)
  {
    FindFrom(b, part, 0)
  }

  function FindFrom(b: Octets, part: Octets, from: nat): (i: int)
    requires forall k | 0 <= k < from :: !StandsAt(b, k, part)
    ensures -1 <= i
    ensures i >= 0 ==> StandsAt(b, i, part) && forall k | 0 <= k < i :: !StandsAt(b, k, part)
    ensures i < 0 ==> forall k: nat :: !StandsAt(b, k, part)
    decreases |b| - from
  {
    if from + |part| > |b| then -1
    else if StandsAt(b, from, part) then from
    else FindFrom(b, part, from + 1)
  }

  /** The UTF-16 code units of a little-endian byte string; an odd last byte is dropped. */
  function CodeUnits(b: Octets): (units: seq<nat>)
    ensures |units| == |b| / 2
  {
    seq(|b| / 2, i requires 0 <= i < |b| / 2 => Little16At(b, i * 2))
  }

  /** The NetBIOS and the DNS name among the attribute pairs; of several the last one. */
  datatype Names = Names(netbios: Octets, dns: Octets)

  function AvNames(info: Octets, names: Names, decode: seq<nat> -> Octets): (r: Names)
    decreases |info|
  {
    if |info| < 4 then names
    else
      var id, length := Little16At(info, 0), Little16At(info, 2);
      if id == 0 || 4 + length > |info| then names
      else AvNames(info[4 + length..], WithPair(names, id, info[4..4 + length], decode), decode)
  }

  function WithPair(names: Names, id: nat, value: Octets, decode: seq<nat> -> Octets): (r: Names) {
    if id == NB_COMPUTER_NAME then names.(netbios := decode(CodeUnits(value)))
    else if id == DNS_COMPUTER_NAME then names.(dns := decode(CodeUnits(value)))
    else names
  }

  function Chosen(names: Names): (name: Octets) {
    if names.dns != [] then names.dns else names.netbios
  }

  /** The target info of the message that starts at the first signature. */
  function TargetInfo(resp: Octets): (info: Option<Octets>) {
    var idx := Find(resp, SIGNATURE);
    if idx < 0 then None
    else
      var msg := resp[idx..];
      if |msg| < 48 || Little32At(msg, 8) != 2 then None
      else
        var length, offset := Little16At(msg, 40), Little32At(msg, 44);
        if length == 0 || offset + length > |msg| then None else Some(msg[offset..offset + length])
  }

  function ComputerName(resp: Octets, decode: seq<nat> -> Octets, sanitize: Octets -> Octets): (name: Octets) {
    match TargetInfo(resp)
    case None => []
    case Some(info) => sanitize(Chosen(AvNames(info, Names([], []), decode)))
  }

  method Utf16LE(b: Octets, decode: seq<nat> -> Octets) returns (text: Octets)
    ensures text == decode(CodeUnits(b))
  {
    var even := b;
    if |even| % 2 != 0 {
      even := even[..|even| - 1];
    }
    var codes: seq<nat> := [];
    for i := 0 to |even| / 2
      invariant codes == CodeUnits(b)[..i]
    {
      assert Little16At(even, i * 2) == Little16At(b, i * 2);
      codes := codes + [Little16At(even, i * 2)];
    }
    assert codes == CodeUnits(b);
    text := decode(codes);
  }

  method ParseNTLMChallenge(resp: Octets, decode: seq<nat> -> Octets, sanitize: Octets -> Octets) returns (name: Octets)
    ensures name == ComputerName(resp, decode, sanitize)
  {
    hide AvNames;
    var idx := Find(resp, SIGNATURE);
    if idx < 0 {
      return [];
    }
    var msg := resp[idx..];
    if |msg| < 48 || Little32At(msg, 8) != 2 {
      return [];
    }
    var tiLen, tiOff := Little16At(msg, 40), Little32At(msg, 44);
    if tiLen == 0 || tiOff + tiLen > |msg| {
      return [];
    }
    var nbName, dnsName := CollectAvNames(msg[tiOff..tiOff + tiLen], decode);
    if dnsName != [] {
      return sanitize(dnsName);
    }
    return sanitize(nbName);
  }

  /** The loop of parseNTLMChallenge. */
  method CollectAvNames(info: Octets, decode: seq<nat> -> Octets) returns (nbName: Octets, dnsName: Octets)
    ensures Names(nbName, dnsName) == AvNames(info, Names([], []), decode)
  {
    nbName, dnsName := [], [];
    var off := 0;
    while off + 4 <= |info|
      invariant off <= |info|
      invariant AvNames(info, Names([], []), decode) == AvNames(info[off..], Names(nbName, dnsName), decode)
      decreases |info| - off
    {
      hide CodeUnits;
      var avID, avLen := Little16At(info, off), Little16At(info, off + 2);
      assert Little16At(info[off..], 0) == avID && Little16At(info[off..], 2) == avLen;
      off := off + 4;
      if avID == 0 {
        break;
      }
      if off + avLen > |info| {
        break;
      }
      ghost var rest := info[off - 4..];
      assert rest[4..4 + avLen] == info[off..off + avLen] && rest[4 + avLen..] == info[off + avLen..];
      if avID == 1 {
        nbName := Utf16LE(info[off..off + avLen], decode);
      } else if avID == 3 {
        dnsName := Utf16LE(info[off..off + avLen], decode);
      }
      off := off + avLen;
    }
  }

  // ---- printing a challenge ----

  type Unit = n: nat | n < 0x1_0000

  /** UTF-16 code units, the low byte of each first. */
  function UnitBytes(units: seq<Unit>): (b: Octets)
    ensures |b| == 2 * |units|
  {
    if units == [] then [] else [units[0] % 256, units[0] / 256] + UnitBytes(units[1..])
  }

  lemma {:induction false} UnitBytesAt(units: seq<Unit>, k: nat)
    requires k < |units|
    ensures UnitBytes(units)[2 * k] == units[k] % 256 && UnitBytes(units)[2 * k + 1] == units[k] / 256
  {
    if k > 0 {
      UnitBytesAt(units[1..], k - 1);
      assert UnitBytes(units)[2 * k] == UnitBytes(units[1..])[2 * (k - 1)];
      assert UnitBytes(units)[2 * k + 1] == UnitBytes(units[1..])[2 * (k - 1) + 1];
    }
  }

  /** What is written is read, with or without an odd byte behind it. */
  lemma UnitsRead(units: seq<Unit>, odd: Octets)
    requires |odd| <= 1
    ensures CodeUnits(UnitBytes(units) + odd) == units
  {
    var b := UnitBytes(units) + odd;
    forall k | 0 <= k < |units| ensures Little16At(b, k * 2) == units[k] {
      UnitBytesAt(units, k);
      assert b[2 * k] == UnitBytes(units)[2 * k] && b[2 * k + 1] == UnitBytes(units)[2 * k + 1];
      hide UnitBytes;
    }
    hide UnitBytes, Little16At;
  }

  /** Any bytes are code units and at most one byte more. */
  lemma {:induction false} AnyValue(b: Octets) returns (units: seq<Unit>, odd: Octets)
    ensures |odd| <= 1 && UnitBytes(units) + odd == b
    decreases |b|
  {
    if |b| <= 1 {
      units, odd := [], b;
    } else {
      var more: seq<Unit>;
      more, odd := AnyValue(b[2..]);
      units := [Little16At(b, 0)] + more;
      assert units[1..] == more && UnitBytes(units) == [units[0] % 256, units[0] / 256] + UnitBytes(more);
      assert b == b[..2] + b[2..] && b[..2] == [units[0] % 256, units[0] / 256];
    }
    hide UnitBytes;
  }

  /** An attribute: its code units, and perhaps one byte more. */
  datatype Pair = Pair(id: Unit, units: seq<Unit>, odd: Octets) {
    function Value(): (b: Octets) {
      UnitBytes(units) + odd
    }
  }

  predicate Printable(p: Pair) {
    |p.odd| <= 1 && |p.Value()| < 0x1_0000
  }

  function PrintPair(p: Pair): (b: Octets)
    requires Printable(p)
  {
    Little16(p.id) + Little16(|p.Value()|) + p.Value()
  }

  function PrintPairs(pairs: seq<Pair>): (b: Octets)
    requires forall p | p in pairs :: Printable(p)
  {
    if pairs == [] then [] else PrintPair(pairs[0]) + PrintPairs(pairs[1..])
  }

  /** The pairs before the first terminator, a pair with id 0. */
  function UpToEnd(pairs: seq<Pair>): (r: seq<Pair>)
    ensures |r| <= |pairs| && r == pairs[..|r|] && (forall p | p in r :: p.id != 0)
    ensures |r| < |pairs| ==> pairs[|r|].id == 0
  {
    if pairs == [] || pairs[0].id == 0 then [] else [pairs[0]] + UpToEnd(pairs[1..])
  }

  /** The code units of the last pair with that id. */
  function LastUnits(pairs: seq<Pair>, id: nat): (r: Option<seq<nat>>)
    ensures r.None? ==> forall k | 0 <= k < |pairs| :: pairs[k].id != id
    ensures r.Some? ==> exists k | 0 <= k < |pairs| ::
                          && pairs[k].id == id && pairs[k].units == r.value
                          && forall j | k < j < |pairs| :: pairs[j].id != id
  {
    if pairs == [] then None
    else
      var later := LastUnits(pairs[1..], id);
      if later.Some? then later else if pairs[0].id == id then Some(pairs[0].units) else None
  }

  function NameOr(units: Option<seq<nat>>, default: Octets, decode: seq<nat> -> Octets): (name: Octets) {
    if units.Some? then decode(units.value) else default
  }

  lemma PairStart(p: Pair, rest: Octets)
    requires Printable(p)
    ensures var (b, n) := (PrintPair(p) + rest, |p.Value()|);
            && |b| == 4 + n + |rest|
            && Little16At(b, 0) == p.id && Little16At(b, 2) == n
            && b[4..4 + n] == p.Value() && b[4 + n..] == rest
            && CodeUnits(p.Value()) == p.units
  {
    var b := PrintPair(p) + rest;
    UnitsRead(p.units, p.odd);
    hide CodeUnits, UnitBytes;
    assert b[0] == p.id % 256 && b[1] == p.id / 256;
    assert b[2] == |p.Value()| % 256 && b[3] == |p.Value()| / 256;
  }

  /** Bytes at which the list ends: a terminator, or less than a whole pair. */
  predicate CutShort(tail: Octets) {
    |tail| < 4 || Little16At(tail, 0) == 0 || 4 + Little16At(tail, 2) > |tail|
  }

  /**
   * The parser finds the code units of the last pair of each name before the terminator, or before a
   * pair that is cut short, and decodes them.
   */
  lemma {:induction false} PrintedPairsRead(pairs: seq<Pair>, tail: Octets, names: Names, decode: seq<nat> -> Octets)
    requires (forall p | p in pairs :: Printable(p)) && (UpToEnd(pairs) == pairs ==> CutShort(tail))
    ensures AvNames(PrintPairs(pairs) + tail, names, decode)
         == Names(NameOr(LastUnits(UpToEnd(pairs), NB_COMPUTER_NAME), names.netbios, decode),
                  NameOr(LastUnits(UpToEnd(pairs), DNS_COMPUTER_NAME), names.dns, decode))
    decreases |pairs|
  {
    if pairs == [] {
      assert PrintPairs(pairs) + tail == tail;
    } else {
      var p, rest := pairs[0], PrintPairs(pairs[1..]) + tail;
      assert PrintPairs(pairs) + tail == PrintPair(p) + rest;
      PairStart(p, rest);
      if p.id != 0 {
        assert UpToEnd(pairs)[1..] == UpToEnd(pairs[1..]) && UpToEnd(pairs)[0] == p;
        assert UpToEnd(pairs[1..]) == pairs[1..] ==> UpToEnd(pairs) == pairs;
        hide PrintPair, PrintPairs, Little16At, CodeUnits, UpToEnd, Pair.Value, Printable, CutShort;
        PrintedPairsRead(pairs[1..], tail, WithPair(names, p.id, p.Value(), decode), decode);
      }
      hide PrintPair, PrintPairs, Little16At, CodeUnits, Pair.Value, Printable, CutShort;
    }
  }

  /** A CHALLENGE message whose target info is `info`, wherever the message keeps it. */
  predicate IsChallenge(msg: Octets, info: Octets) {
    && |msg| >= 48 && msg[..8] == [78, 84, 76, 77, 83, 83, 80, 0] && Little32At(msg, 8) == 2
    && 0 < |info| == Little16At(msg, 40)
    && StandsAt(msg, Little32At(msg, 44), info)
  }

  /** "N" occurs in the signature only at its start, so no match begins before a message and ends in it. */
  lemma NoStraddling(prefix: Octets, msg: Octets, i: nat)
    requires |msg| >= 8 && msg[..8] == SIGNATURE && i < |prefix| < i + 8
    ensures !StandsAt(prefix + msg, i, SIGNATURE)
  {
    var all := prefix + msg;
    var d := |prefix| - i;
    assert all[|prefix|] == msg[..8][0];
    assert all[i..i + 8][d] == all[|prefix|];
    assert SIGNATURE[d] != SIGNATURE[0];
  }

  lemma FirstSignature(prefix: Octets, msg: Octets)
    requires |msg| >= 8 && msg[..8] == SIGNATURE
    requires forall k: nat :: !StandsAt(prefix, k, SIGNATURE)
    ensures Find(prefix + msg, SIGNATURE) == |prefix|
  {
    var all := prefix + msg;
    assert all[|prefix|..|prefix| + 8] == msg[..8];
    assert StandsAt(all, |prefix|, SIGNATURE);
    forall i: nat | i < |prefix| ensures !StandsAt(all, i, SIGNATURE) {
      if i + 8 <= |prefix| {
        assert all[i..i + 8] == prefix[i..i + 8];
        assert !StandsAt(prefix, i, SIGNATURE);
      } else {
        NoStraddling(prefix, msg, i);
      }
    }
  }

  /** Behind a prefix without a signature, target info is found exactly in a CHALLENGE. */
  lemma TargetInfoFound(prefix: Octets, msg: Octets, info: Octets)
    requires |msg| >= 8 && msg[..8] == SIGNATURE
    requires forall k: nat :: !StandsAt(prefix, k, SIGNATURE)
    ensures TargetInfo(prefix + msg) == Some(info) <==> IsChallenge(msg, info)
  {
    FirstSignature(prefix, msg);
    hide Find, Little16At, Little32At;
    assert (prefix + msg)[|prefix|..] == msg;
  }

  /** Without a signature there is no name. */
  lemma NoSignature(resp: Octets, decode: seq<nat> -> Octets, sanitize: Octets -> Octets)
    requires forall k: nat :: !StandsAt(resp, k, SIGNATURE)
    ensures ComputerName(resp, decode, sanitize) == []
  {
  }

  /**
   * After any prefix without a signature, the name found in a CHALLENGE is the DNS computer name, or
   * the NetBIOS computer name where that is empty; of repeated names, the last before the terminator.
   */
  lemma ChallengeNameFound(prefix: Octets, msg: Octets, pairs: seq<Pair>, tail: Octets,
                           decode: seq<nat> -> Octets, sanitize: Octets -> Octets)
    requires (forall p | p in pairs :: Printable(p)) && (UpToEnd(pairs) == pairs ==> CutShort(tail))
    requires IsChallenge(msg, PrintPairs(pairs) + tail)
    requires forall k: nat :: !StandsAt(prefix, k, SIGNATURE)
    ensures var dns := NameOr(LastUnits(UpToEnd(pairs), 3), [], decode);
            var netbios := NameOr(LastUnits(UpToEnd(pairs), 1), [], decode);
            ComputerName(prefix + msg, decode, sanitize) == sanitize(if dns != [] then dns else netbios)
  {
    assert |msg| >= 8 && msg[..8] == SIGNATURE;
    hide PrintPairs, AvNames, LastUnits, UpToEnd, Printable, IsChallenge, TargetInfo, CodeUnits, CutShort;
    TargetInfoFound(prefix, msg, PrintPairs(pairs) + tail);
    PrintedPairsRead(pairs, tail, Names([], []), decode);
  }

  /** A challenge with its target info behind the fixed part; `flags` are the bytes 12 to 39. */
  function PrintChallenge(flags: Octets, pairs: seq<Pair>): (b: Octets)
    requires |flags| == 28 && (forall p | p in pairs :: Printable(p)) && |PrintPairs(pairs)| < 0x1_0000
  {
    var info := PrintPairs(pairs);
    SIGNATURE + Little32(2) + flags + Little16(|info|) + Little16(|info|) + Little32(48) + info
  }

  lemma PrintedChallenge(flags: Octets, pairs: seq<Pair>)
    requires |flags| == 28 && (forall p | p in pairs :: Printable(p)) && 0 < |PrintPairs(pairs)| < 0x1_0000
    ensures IsChallenge(PrintChallenge(flags, pairs), PrintPairs(pairs))
  {
    var info := PrintPairs(pairs);
    hide PrintPairs, Little16, Little32, Little16At, Little32At;
    FixedParts(SIGNATURE, Little32(2), flags, Little16(|info|), Little32(48), info);
    var b := PrintChallenge(flags, pairs);
    Little32Reads(b, 8, 2);
    Little16Reads(b, 40, |info|);
    Little32Reads(b, 44, 48);
  }

  lemma FixedParts(signature: Octets, kind: Octets, flags: Octets, size: Octets, start: Octets, info: Octets)
    requires |signature| == 8 && |kind| == 4 && |flags| == 28 && |size| == 2 && |start| == 4
    ensures var b := signature + kind + flags + size + size + start + info;
            && b[..8] == signature && b[8..12] == kind && b[40..42] == size && b[44..48] == start
            && b[48..48 + |info|] == info && |b| == 48 + |info|
  {
  }

  lemma Little16Reads(b: Octets, i: nat, n: nat)
    requires n < 0x1_0000 && i + 2 <= |b| && b[i..i + 2] == Little16(n)
    ensures Little16At(b, i) == n
  {
    assert b[i] == b[i..i + 2][0] && b[i + 1] == b[i..i + 2][1];
  }

  lemma Little32Reads(b: Octets, i: nat, n: nat)
    requires n < 0x1_0000_0000 && i + 4 <= |b| && b[i..i + 4] == Little32(n)
    ensures Little32At(b, i) == n
  {
    var low, high := n % 0x1_0000, n / 0x1_0000;
    assert b[i..i + 2] == b[i..i + 4][..2] == Little16(low);
    assert b[i + 2..i + 4] == b[i..i + 4][2..] == Little16(high);
    Little16Reads(b, i, low);
    Little16Reads(b, i + 2, high);
  }
}
