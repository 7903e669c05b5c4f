/**
 * What the mDNS and LLMNR listeners read out of the bytes of one packet (mdns.go:21-57 and
 * llmnr.go:21-43): the addresses and names in its records.
 */
module NameRecords {
  import opened Wrappers
  import opened Octets
  import opened IPv4
  import opened DnsName
  import opened DnsPacket
  import opened DnsRecords

  /** An address record with its name, or the name in a PTR or SRV record; names without the last dot. */
  datatype NameRecord = Address(ip: Addr, name: Octets) | Pointer(name: Octets)

  /** dnsRecordIPv4. */
  function RecordIPv4(rec: Record): (ip: Option<Addr>) {
    if rec.rtype != TYPE_A || |rec.data| != 4 then None else Some(rec.data)
  }

  // ---- mDNS ----

  /** Decoding the names in the records comes to an end. */
  predicate AllNamed(data: Octets, records: seq<Record>, sanitize: Octets -> Octets) {
    forall rec | rec in records :: RecordName(data, rec, sanitize).Returns?
  }

  function NameRecordOf(data: Octets, rec: Record, sanitize: Octets -> Octets): (r: seq<NameRecord>)
    requires RecordName(data, rec, sanitize).Returns?
  {
    var ip := RecordIPv4(rec);
    if ip.Some? then [Address(ip.value, WithoutDot(rec.name))]
    else if rec.rtype == TYPE_PTR || rec.rtype == TYPE_SRV then [Pointer(RecordName(data, rec, sanitize).value)]
    else []
  }

  function NamesOf(data: Octets, records: seq<Record>, sanitize: Octets -> Octets): (r: seq<NameRecord>)
    requires AllNamed(data, records, sanitize)
  {
    if records == [] then []
    else
      var front, last := records[..|records| - 1], records[|records| - 1];
      assert last in records && forall rec | rec in front :: rec in records;
      NamesOf(data, front, sanitize) + NameRecordOf(data, last, sanitize)
  }

  /** A packet that does not parse says nothing. */
  function ReadMDNS(data: Octets, sanitize: Octets -> Octets): (r: Outcome<seq<NameRecord>>) {
    match ParsePacket(data)
    case Diverges => Diverges
    case Returns(None) => Returns([])
    case Returns(Some(packet)) =>
      if AllNamed(data, packet.records, sanitize) then Returns(NamesOf(data, packet.records, sanitize)) else Diverges
  }

  /** The listener gets through a packet exactly when no name in it runs in a circle. */
  lemma MDNSReturnsIffAcyclic(data: Octets, sanitize: Octets -> Octets)
    ensures ReadMDNS(data, sanitize).Returns?
       <==> (forall o | o in PacketNames(data) :: Acyclic(data, o))
            && (ParsePacket(data).Returns? && ParsePacket(data).value.Some? ==>
                  forall rec | rec in ParsePacket(data).value.value.records && NameOffset(data, rec).Some? ::
                    Acyclic(data, NameOffset(data, rec).value))
  {
    WalkReturnsIffAcyclic(data);
    forall rec: Record
      ensures RecordName(data, rec, sanitize).Returns?
         <==> NameOffset(data, rec).Some? ==> Acyclic(data, NameOffset(data, rec).value)
    {
      if NameOffset(data, rec).Some? {
        NameReturns(data, NameOffset(data, rec).value);
      }
      hide Acyclic, Decode, NameOffset;
    }
    hide ParsePacket, PacketNames, Acyclic, RecordName, NameOffset;
  }

  // ---- LLMNR ----

  function AddressNames(records: seq<Record>): (names: seq<(Addr, Octets)>) {
    if records == [] then []
    else
      var last := records[|records| - 1];
      AddressNames(records[..|records| - 1])
      + if RecordIPv4(last).Some? then [(RecordIPv4(last).value, WithoutDot(last.name))] else []
  }

  function ReadLLMNR(data: Octets): (r: Outcome<seq<(Addr, Octets)>>) {
    match ParsePacket(data)
    case Diverges => Diverges
    case Returns(None) => Returns([])
    case Returns(Some(packet)) => Returns(AddressNames(packet.records))
  }

  // ---- what a packet announces ----

  /** What is announced of a name: an address, the name it points to, or anything else. */
  datatype Body =
    | A(ip: Addr)
    | PTR(target: NameForm)
    | SRV(priority: Word, weight: Word, port: Word, target: NameForm)
    | Other(rtype: Word, data: Octets)
  {
    predicate Valid() {
      match this
      case A(_) => true
      case PTR(target) => target.Valid() && |target.Bytes()| < 0x1_0000
      case SRV(_, _, _, target) => target.Valid() && 6 + |target.Bytes()| < 0x1_0000
      case Other(rtype, data) =>
        |data| < 0x1_0000 && rtype != 12 && rtype != 33 && (rtype == 1 ==> |data| != 4)
    }

    predicate Resolves(data: Octets) {
      match this
      case A(_) => true
      case PTR(target) => target.Resolves(data)
      case SRV(_, _, _, target) => target.Resolves(data)
      case Other(_, _) => true
    }

    function Type(): (rtype: Word) {
      match this
      case A(_) => 1
      case PTR(_) => 12
      case SRV(_, _, _, _) => 33
      case Other(rtype, _) => rtype
    }

    function Bytes(): (b: Octets)
      requires Valid()
    {
      match this
      case A(ip) => ip
      case PTR(target) => target.Bytes()
      case SRV(priority, weight, port, target) => Big16(priority) + Big16(weight) + Big16(port) + target.Bytes()
      case Other(_, data) => data
    }
  }

  datatype Announcement = Announcement(name: NameForm, class_: Word, ttl: Long, body: Body) {
    predicate Valid() {
      name.Valid() && body.Valid()
    }

    predicate Resolves(data: Octets) {
      name.Resolves(data) && body.Resolves(data)
    }

    function Written(): (e: Entry)
      requires Valid()
    {
      Entry(name, body.Type(), class_, ttl, body.Bytes())
    }

    /** What it says to an mDNS listener, inside `data`. */
    function Says(data: Octets, sanitize: Octets -> Octets): (r: seq<NameRecord>)
      requires Resolves(data)
    {
      match body
      case A(ip) => [Address(ip, WithoutDot(name.Meaning(data)))]
      case PTR(target) => [Pointer(WithoutDot(sanitize(target.Meaning(data))))]
      case SRV(_, _, _, target) => [Pointer(WithoutDot(sanitize(target.Meaning(data))))]
      case Other(_, _) => []
    }
  }

  predicate AllValid(all: seq<Announcement>, data: Octets) {
    forall a | a in all :: a.Valid() && a.Resolves(data)
  }

  function AllSay(all: seq<Announcement>, data: Octets, sanitize: Octets -> Octets): (r: seq<NameRecord>)
    requires AllValid(all, data)
  {
    if all == [] then []
    else
      var front, last := all[..|all| - 1], all[|all| - 1];
      assert last in all && forall a | a in front :: a in all;
      AllSay(front, data, sanitize) + last.Says(data, sanitize)
  }

  lemma {:induction false} AddressesSaid(all: seq<Announcement>, data: Octets, sanitize: Octets -> Octets, ip: Addr)
    requires AllValid(all, data)
    ensures (exists r | r in AllSay(all, data, sanitize) :: r.Address? && r.ip == ip)
       <==> (exists a | a in all :: a.body == A(ip))
  {
    if all != [] {
      var front, last := all[..|all| - 1], all[|all| - 1];
      assert last in all && forall a | a in front :: a in all;
      AddressesSaid(front, data, sanitize, ip);
      assert all == front + [last];
      var said := AllSay(front, data, sanitize);
      assert AllSay(all, data, sanitize) == said + last.Says(data, sanitize);
      hide AllSay, AllValid, WithoutDot, NameForm.Meaning, NameForm.Resolves, Body.Resolves;
    }
  }

  /** The record in which an announcement was written says what was announced. */
  lemma WrittenSays(data: Octets, offset: nat, a: Announcement, rec: Record, sanitize: Octets -> Octets)
    requires a.Valid() && a.Resolves(data) && rec == MeantOne(data, offset, a.Written())
    requires StandsAt(data, rec.rdataOffset, rec.data)
    ensures RecordName(data, rec, sanitize).Returns? && NameRecordOf(data, rec, sanitize) == a.Says(data, sanitize)
  {
    hide StandsAt, NameForm.Bytes, NameForm.Meaning, NameForm.Resolves, WithoutDot, Decode;
    match a.body
    case PTR(target) =>
      assert [] + target.Bytes() == target.Bytes();
      WrittenRecordNameRead(data, rec, [], target, sanitize);
    case SRV(priority, weight, port, target) =>
      WrittenRecordNameRead(data, rec, Big16(priority) + Big16(weight) + Big16(port), target, sanitize);
    case _ =>
  }

  lemma {:induction false} AllWrittenSay(data: Octets, all: seq<Announcement>, records: seq<Record>,
                                         sanitize: Octets -> Octets)
    requires AllValid(all, data) && |records| == |all|
    requires forall i | 0 <= i < |all| :: RecordName(data, records[i], sanitize).Returns?
    requires forall i | 0 <= i < |all| ::
               NameRecordOf(data, records[i], sanitize) == (assert all[i] in all; all[i].Says(data, sanitize))
    ensures AllNamed(data, records, sanitize) && NamesOf(data, records, sanitize) == AllSay(all, data, sanitize)
  {
    hide NameRecordOf, RecordName, Announcement.Says, Announcement.Valid, Announcement.Resolves;
    forall rec | rec in records ensures RecordName(data, rec, sanitize).Returns? {
      var i :| 0 <= i < |records| && records[i] == rec;
    }
    if all != [] {
      var n := |all| - 1;
      assert forall i | 0 <= i < n :: all[..n][i] == all[i] && records[..n][i] == records[i];
      assert forall a | a in all[..n] :: a in all;
      AllWrittenSay(data, all[..n], records[..n], sanitize);
    }
  }

  ghost predicate WrittenAs(entries: seq<Entry>, all: seq<Announcement>) {
    |entries| == |all| && forall i | 0 <= i < |all| :: all[i].Valid() && entries[i] == all[i].Written()
  }

  lemma EntriesSay(data: Octets, offset: nat, entries: seq<Entry>, all: seq<Announcement>, sanitize: Octets -> Octets)
    requires ValidEntries(entries) && (forall e | e in entries :: e.name.Resolves(data))
    requires WrittenAs(entries, all) && AllValid(all, data)
    requires forall rec | rec in Meant(data, offset, entries) :: StandsAt(data, rec.rdataOffset, rec.data)
    ensures var records := Meant(data, offset, entries);
            AllNamed(data, records, sanitize) && NamesOf(data, records, sanitize) == AllSay(all, data, sanitize)
  {
    var records := Meant(data, offset, entries);
    hide ValidEntries, StandsAt, NameRecordOf, RecordName, NameForm.Valid, NameForm.Resolves;
    hide Announcement.Says, Announcement.Written, Announcement.Valid, Announcement.Resolves, Start, MeantOne;
    forall i | 0 <= i < |all|
      ensures RecordName(data, records[i], sanitize).Returns?
      ensures NameRecordOf(data, records[i], sanitize) == (assert all[i] in all; all[i].Says(data, sanitize))
    {
      assert all[i] in all && entries[i] in entries && records[i] in records;
      WrittenSays(data, Start(offset, entries, i), all[i], records[i], sanitize);
    }
    AllWrittenSay(data, all, records, sanitize);
  }

  lemma RecordsStand(data: Octets, offset: nat, records: seq<Record>)
    requires LaidOut(data, offset, records)
    ensures forall rec | rec in records :: StandsAt(data, rec.rdataOffset, rec.data)
  {
  }

  lemma ParsedRead(data: Octets, packet: Packet, offset: nat, entries: seq<Entry>, all: seq<Announcement>,
                   sanitize: Octets -> Octets)
    requires ValidEntries(entries) && (forall e | e in entries :: e.name.Resolves(data))
    requires WrittenAs(entries, all) && AllValid(all, data)
    requires ParsePacket(data) == Returns(Some(packet)) && packet.records == Meant(data, offset, entries)
    ensures ReadMDNS(data, sanitize) == Returns(AllSay(all, data, sanitize))
  {
    ParsedRecordsLaidOut(data);
    hide ParsePacket, StandsAt, LaidOut, Meant, ValidEntries, AllValid, AllNamed, NamesOf, AllSay, WrittenAs;
    hide RecordCount;
    hide NameForm.Resolves;
    RecordsStand(data, HEADER, packet.records);
    EntriesSay(data, offset, entries, all, sanitize);
  }

  /** What was printed is read: every address and name that the packet announces, in order. */
  lemma PrintedMDNSRead(form: Form, all: seq<Announcement>, after: Octets, sanitize: Octets -> Octets)
    requires form.Valid() && WrittenAs(form.entries, all)
    requires form.Missing() > 0 ==> |after| < 10 && Acyclic(form.Bytes() + after, |form.Bytes()|)
    requires form.Resolves(form.Bytes() + after) && AllValid(all, form.Bytes() + after)
    ensures ReadMDNS(form.Bytes() + after, sanitize) == Returns(AllSay(all, form.Bytes() + after, sanitize))
  {
    hide ReadMDNS, ParsePacket, Form.Bytes, Form.Header, Meant, AllValid, AllSay, WrittenAs, PrintQuestions;
    hide ValidEntries;
    hide ValidQuestions, NameForm.Resolves;
    PrintedPacketParses(form, after);
    var data := form.Bytes() + after;
    var packet := ParsePacket(data).value.value;
    ParsedRead(data, packet, HEADER + |PrintQuestions(form.questions)|, form.entries, all, sanitize);
  }

  function AddressesIn(names: seq<NameRecord>): (r: seq<(Addr, Octets)>) {
    if names == [] then []
    else
      var last := names[|names| - 1];
      AddressesIn(names[..|names| - 1]) + if last.Address? then [(last.ip, last.name)] else []
  }

  lemma {:induction false} SameAddresses(data: Octets, records: seq<Record>, sanitize: Octets -> Octets)
    requires AllNamed(data, records, sanitize)
    ensures AddressNames(records) == AddressesIn(NamesOf(data, records, sanitize))
  {
    if records != [] {
      var front, last := records[..|records| - 1], records[|records| - 1];
      assert last in records && forall rec | rec in front :: rec in records;
      SameAddresses(data, front, sanitize);
      var names, more := NamesOf(data, front, sanitize), NameRecordOf(data, last, sanitize);
      assert NamesOf(data, records, sanitize) == names + more;
      hide RecordName, WithoutDot, NamesOf, AllNamed;
      if more == [] {
        assert names + [] == names && AddressesIn(names) + [] == AddressesIn(names);
      } else {
        AddressesInSnoc(names, more[0]);
        assert more == [more[0]];
      }
      hide AddressesIn;
    }
  }

  lemma AddressesInSnoc(names: seq<NameRecord>, r: NameRecord)
    ensures AddressesIn(names + [r]) == AddressesIn(names) + if r.Address? then [(r.ip, r.name)] else []
  {
    assert (names + [r])[..|names|] == names;
  }

  /** Of the same packet an LLMNR listener reads the addresses only. */
  lemma LLMNRReadsAddresses(data: Octets, sanitize: Octets -> Octets)
    requires ReadMDNS(data, sanitize).Returns?
    ensures ReadLLMNR(data) == Returns(AddressesIn(ReadMDNS(data, sanitize).value))
  {
    hide ParsePacket;
    if ParsePacket(data).value.Some? {
      SameAddresses(data, ParsePacket(data).value.value.records, sanitize);
    }
  }

  lemma PrintedLLMNRRead(form: Form, all: seq<Announcement>, after: Octets, sanitize: Octets -> Octets)
    requires form.Valid() && WrittenAs(form.entries, all)
    requires form.Missing() > 0 ==> |after| < 10 && Acyclic(form.Bytes() + after, |form.Bytes()|)
    requires form.Resolves(form.Bytes() + after) && AllValid(all, form.Bytes() + after)
    ensures ReadLLMNR(form.Bytes() + after) == Returns(AddressesIn(AllSay(all, form.Bytes() + after, sanitize)))
  {
    PrintedMDNSRead(form, all, after, sanitize);
    LLMNRReadsAddresses(form.Bytes() + after, sanitize);
    hide ReadMDNS, ReadLLMNR, Form.Bytes, Form.Valid;
  }
}
