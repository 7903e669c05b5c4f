/** What dnswire.go reads out of single records: the name in a PTR or SRV record, the text in a TXT record. */
module DnsRecords {
  import opened Wrappers
  import opened Octets
  import opened DnsName
  import opened DnsPacket

  const TYPE_A := 1
  const TYPE_PTR := 12
  const TYPE_TXT := 16
  const TYPE_SRV := 33
  const SPACE: Octet := 32

  /** strings.TrimSuffix(s, "."). */
  function WithoutDot(s: Octets): (r: Octets) {
    if s != [] && s[|s| - 1] == DOT then s[..|s| - 1] else s
  }

  /** One dot at the end is dropped, and nothing else. */
  lemma DotDropped(s: Octets)
    ensures WithoutDot(s + [46]) == s
    ensures s == [] || s[|s| - 1] != 46 ==> WithoutDot(s) == s
  {
  }

  /** Where the name in a PTR or SRV record starts; it is read in the message, for it may use pointers. */
  function NameOffset(msg: Octets, rec: Record): (o: Option<nat>) {
    var offset := if rec.rtype == TYPE_SRV then rec.rdataOffset + 6 else rec.rdataOffset;
    if (rec.rtype != TYPE_PTR && rec.rtype != TYPE_SRV) || offset >= |msg| then None else Some(offset)
  }

  /** dnsRecordName. */
  function RecordName(msg: Octets, rec: Record, sanitize: Octets -> Octets): (r: Outcome<Octets>) {
    var offset := NameOffset(msg, rec);
    if offset.None? then Returns([])
    else
      match Decode(msg, offset.value)
      case Diverges => Diverges
      case Returns((name, _)) => Returns(WithoutDot(sanitize(name)))
  }

  method DNSRecordName(msg: Octets, rec: Record, sanitize: Octets -> Octets) returns (name: Octets)
    requires RecordName(msg, rec, sanitize).Returns?
    ensures RecordName(msg, rec, sanitize) == Returns(name)
  {
    if rec.rtype != TYPE_PTR && rec.rtype != TYPE_SRV {
      return [];
    }
    var offset := rec.rdataOffset;
    if rec.rtype == TYPE_SRV {
      offset := offset + 6;
    }
    if offset >= |msg| {
      return [];
    }
    var decoded, _ := DecodeDNSName(msg, offset, |msg|);
    return WithoutDot(sanitize(decoded));
  }

  /**
   * The name of a PTR record, and that of an SRV record behind its priority, weight and port, is the
   * one that was written there, compressed or not.
   */
  lemma WrittenRecordNameRead(data: Octets, rec: Record, fixed: Octets, form: NameForm, sanitize: Octets -> Octets)
    requires form.Valid() && form.Resolves(data)
    requires StandsAt(data, rec.rdataOffset, rec.data) && rec.data == fixed + form.Bytes()
    requires (rec.rtype == TYPE_PTR && fixed == []) || (rec.rtype == TYPE_SRV && |fixed| == 6)
    ensures RecordName(data, rec, sanitize) == Returns(WithoutDot(sanitize(form.Meaning(data))))
  {
    StandsAtConcat(data, rec.rdataOffset, fixed, form.Bytes());
    WrittenNameDecodes(data, rec.rdataOffset + |fixed|, form);
    assert |form.Bytes()| >= 1;
    hide Decode, StandsAt, NameForm.Bytes, NameForm.Meaning, WithoutDot;
  }

  // ---- TXT records ----

  /** The length-prefixed strings; a last one that is cut short is dropped. */
  function TextParts(data: Octets): (parts: seq<Octets>)
    decreases |data|
  {
    if data == [] || 1 + data[0] > |data| then []
    else [data[1..1 + data[0]]] + TextParts(data[1 + data[0]..])
  }

  function RecordText(rec: Record, sanitize: Octets -> Octets): (text: Octets) {
    if rec.rtype != TYPE_TXT || rec.data == [] then [] else sanitize(Join(TextParts(rec.data), SPACE))
  }

  method DNSRecordTXT(rec: Record, sanitize: Octets -> Octets) returns (text: Octets)
    ensures text == RecordText(rec, sanitize)
  {
    if rec.rtype != TYPE_TXT || |rec.data| == 0 {
      return [];
    }
    var parts: seq<Octets> := [];
    var offset := 0;
    NoStringYet(rec.data);
    hide TextParts, ReadUpTo, Join;
    while offset < |rec.data|
      invariant offset <= |rec.data| && ReadUpTo(rec.data, offset, parts)
      decreases |rec.data| - offset
    {
      NextString(rec.data, offset, parts);
      var length := rec.data[offset];
      offset := offset + 1;
      if offset + length > |rec.data| {
        break;
      }
      parts := parts + [rec.data[offset..offset + length]];
      offset := offset + length;
    }
    LastString(rec.data, parts);
    return sanitize(Join(parts, SPACE));
  }

  /** The strings before `offset` have been read. */
  ghost predicate ReadUpTo(data: Octets, offset: nat, parts: seq<Octets>)
    requires offset <= |data|
  {
    TextParts(data) == parts + TextParts(data[offset..])
  }

  lemma NoStringYet(data: Octets)
    ensures ReadUpTo(data, 0, [])
  {
    assert data[0..] == data && [] + TextParts(data) == TextParts(data);
  }

  /** Another string, or the cut-short end. */
  lemma NextString(data: Octets, offset: nat, parts: seq<Octets>)
    requires offset < |data| && ReadUpTo(data, offset, parts)
    ensures var end := offset + 1 + data[offset];
            if end > |data| then ReadUpTo(data, |data|, parts)
            else ReadUpTo(data, end, parts + [data[offset + 1..end]])
  {
    FirstString(data, offset);
    hide TextParts;
    var end := offset + 1 + data[offset];
    if end <= |data| {
      var part, tail := data[offset + 1..end], TextParts(data[end..]);
      assert parts + ([part] + tail) == (parts + [part]) + tail;
    }
  }

  lemma FirstString(data: Octets, offset: nat)
    requires offset < |data|
    ensures var end := offset + 1 + data[offset];
            TextParts(data[offset..])
            == if end > |data| then TextParts(data[|data|..]) else [data[offset + 1..end]] + TextParts(data[end..])
  {
    var rest, end := data[offset..], offset + 1 + data[offset];
    if end <= |data| {
      assert rest[1..1 + rest[0]] == data[offset + 1..end] && rest[1 + rest[0]..] == data[end..];
    }
  }

  lemma LastString(data: Octets, parts: seq<Octets>)
    requires ReadUpTo(data, |data|, parts)
    ensures TextParts(data) == parts
  {
    assert data[|data|..] == [] && parts + [] == parts;
  }

  function PrintText(parts: seq<Octets>): (b: Octets)
    requires forall p | p in parts :: |p| < 256
  {
    if parts == [] then [] else [|parts[0]|] + parts[0] + PrintText(parts[1..])
  }

  /** Bytes that do not hold one whole string. */
  predicate CutShort(tail: Octets) {
    tail == [] || 1 + tail[0] > |tail|
  }

  lemma StringFirst(p: Octets, rest: Octets)
    requires |p| < 256
    ensures TextParts([|p|] + p + rest) == [p] + TextParts(rest)
  {
    var b := [|p|] + p + rest;
    assert b[0] == |p| && b[1..1 + |p|] == p && b[1 + |p|..] == rest;
  }

  /** Printed strings are read back, whatever cut-short string follows them. */
  lemma {:induction false} PrintedTextRead(parts: seq<Octets>, tail: Octets)
    requires (forall p | p in parts :: |p| < 256) && CutShort(tail)
    ensures TextParts(PrintText(parts) + tail) == parts
    decreases |parts|
  {
    if parts == [] {
      assert PrintText(parts) + tail == tail;
    } else {
      var p, rest := parts[0], PrintText(parts[1..]);
      PrintedTextRead(parts[1..], tail);
      assert PrintText(parts) == [|p|] + p + rest;
      hide TextParts, PrintText, CutShort;
      assert [|p|] + p + rest + tail == [|p|] + p + (rest + tail);
      StringFirst(p, rest + tail);
    }
  }

  /** The text of a TXT record is its strings with a space between any two; other records have none. */
  lemma RecordTextRead(rec: Record, parts: seq<Octets>, tail: Octets, sanitize: Octets -> Octets)
    requires (forall p | p in parts :: |p| < 256) && CutShort(tail)
    requires rec.data == PrintText(parts) + tail && rec.data != []
    ensures RecordText(rec, sanitize) == if rec.rtype == 16 then sanitize(Join(parts, 32)) else []
  {
    PrintedTextRead(parts, tail);
    hide PrintText, TextParts, Join;
  }

  lemma PrintTextCons(p: Octets, parts: seq<Octets>)
    requires |p| < 256 && forall q | q in parts :: |q| < 256
    ensures (forall q | q in [p] + parts :: |q| < 256) && PrintText([p] + parts) == [|p|] + p + PrintText(parts)
  {
    assert ([p] + parts)[1..] == parts;
  }

  /** All data is the strings read from it, printed, and then at most one more that is cut short. */
  lemma {:induction false} TextIsItsParts(data: Octets) returns (tail: Octets)
    ensures (forall p | p in TextParts(data) :: |p| < 256)
    ensures data == PrintText(TextParts(data)) + tail && CutShort(tail)
    decreases |data|
  {
    if CutShort(data) {
      tail := data;
      assert PrintText([]) + data == data;
    } else {
      var part, rest := data[1..1 + data[0]], data[1 + data[0]..];
      tail := TextIsItsParts(rest);
      PrintTextCons(part, TextParts(rest));
      assert TextParts(data) == [part] + TextParts(rest);
      hide TextParts, PrintText, CutShort;
      assert data == [|part|] + part + rest;
    }
  }
}
