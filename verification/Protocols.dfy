/**
 * What the four discovery protocols make of the packets they hear (ssdp.go, mdns.go, llmnr.go and
 * wsd.go), and that it does not matter which of them finishes first. SSDP and WS-Discovery replies are
 * taken after parsing.
 */
module Protocols {
  import opened Octets
  import opened Sorting
  import opened IPv4
  import DnsName
  import DnsPacket
  import opened DnsRecords
  import opened NameRecords
  import opened TextLists
  import opened Discovery

  const DOT_LOCAL: Text := [46, 108, 111, 99, 97, 108]  // ".local"
  const DOT_TCP: Text := [46, 95, 116, 99, 112, 46]     // "._tcp."
  const DOT_UDP: Text := [46, 95, 117, 100, 112, 46]    // "._udp."

  predicate HasSuffix(s: Text, suffix: Text) {
    |s| >= |suffix| && s[|s| - |suffix|..] == suffix
  }

  predicate Contains(s: Text, part: Text) {
    exists i :: 0 <= i <= |s| && StandsAt(s, i, part)
  }

  predicate IsService(name: Text) {
    Contains(name, DOT_TCP) || Contains(name, DOT_UDP)
  }

  /** firstNonEmpty of two values. */
  function FirstNonEmpty(a: Text, b: Text, ops: TextOps): (r: Text) {
    if ops.trim(a) != [] then ops.trim(a) else ops.trim(b)
  }

  datatype Packet =
    | SSDPReply(ip: Addr, server: Text, st: Text, usn: Text, location: Text)
    | MDNSPacket(records: seq<NameRecord>)
    | LLMNRPacket(names: seq<(Addr, Text)>)
    | WSDReply(ip: Addr, types: seq<Text>, xaddrs: seq<Text>, scopes: seq<Text>)

  function ProtocolOf(p: Packet): (r: Protocol) {
    match p
    case SSDPReply(_, _, _, _, _) => SSDP
    case MDNSPacket(_) => MDNS
    case LLMNRPacket(_) => LLMNR
    case WSDReply(_, _, _, _) => WSD
  }

  // ---- what a packet does to the hits of its protocol ----

  function WithSource(h: Hit, p: Protocol, ops: TextOps): (r: Hit) {
    h.(sources := AppendEach(h.sources, [SourceName(p)], ops))
  }

  /** One record of an mDNS packet; a pointer to a service belongs to all addresses seen before it. */
  function LocalStep(local: map<Addr, Hit>, rec: NameRecord, ops: TextOps): (r: map<Addr, Hit>) {
    match rec
    case Address(ip, name) =>
      var h := WithSource(HitAt(local, ip), MDNS, ops);
      local[ip := h.(mdnsName := if HasSuffix(ops.lower(name), DOT_LOCAL) && h.mdnsName == [] then name else h.mdnsName,
                     mdnsServices :=
                       if IsService(name) then AppendUnique(h.mdnsServices, [name], ops) else h.mdnsServices)]
    case Pointer(name) =>
      if name != [] && IsService(name)
      then map ip | ip in local :: local[ip].(mdnsServices := AppendUnique(local[ip].mdnsServices, [name], ops))
      else local
  }

  function Local(records: seq<NameRecord>, ops: TextOps): (local: map<Addr, Hit>) {
    if records == [] then map[] else LocalStep(Local(records[..|records| - 1], ops), records[|records| - 1], ops)
  }

  /** The last non-empty name of each address. */
  function NamesByIP(names: seq<(Addr, Text)>): (m: map<Addr, Text>) {
    if names == [] then map[]
    else
      var (ip, name) := names[|names| - 1];
      var m := NamesByIP(names[..|names| - 1]);
      if name == [] then m else m[ip := name]
  }

  function Named(h: Hit, name: Text, ops: TextOps): (r: Hit) {
    var s := WithSource(h, LLMNR, ops);
    s.(llmnrName := First(s.llmnrName, name))
  }

  function Hear(hits: map<Addr, Hit>, p: Packet, ops: TextOps): (r: map<Addr, Hit>) {
    match p
    case SSDPReply(ip, server, st, usn, location) =>
      var h := WithSource(HitAt(hits, ip), SSDP, ops);
      hits[ip := h.(ssdpServer := First(h.ssdpServer, server),
                    upnpType := First(h.upnpType, FirstNonEmpty(st, usn, ops)),
                    upnpLocation := First(h.upnpLocation, location))]
    case MDNSPacket(records) =>
      var local := Local(records, ops);
      map ip | ip in hits.Keys + local.Keys :: if ip in local then Merge(HitAt(hits, ip), local[ip], ops) else hits[ip]
    case LLMNRPacket(names) =>
      var m := NamesByIP(names);
      map ip | ip in hits.Keys + m.Keys :: if ip in m then Named(HitAt(hits, ip), m[ip], ops) else hits[ip]
    case WSDReply(ip, types, xaddrs, scopes) =>
      var h := WithSource(HitAt(hits, ip), WSD, ops);
      hits[ip := h.(wsdTypes := AppendUnique(h.wsdTypes, types, ops),
                    wsdXAddrs := AppendUnique(h.wsdXAddrs, xaddrs, ops),
                    wsdScopes := AppendUnique(h.wsdScopes, scopes, ops))]
  }

  /** All a protocol has heard. */
  function Listen(packets: seq<Packet>, ops: TextOps): (hits: map<Addr, Hit>) {
    if packets == [] then map[] else Hear(Listen(packets[..|packets| - 1], ops), packets[|packets| - 1], ops)
  }

  /** The packet handlers, which change the protocol's map of hits under its lock. */
  class Listener {
    const ops: TextOps
    var hits: map<Addr, Hit>

    constructor (ops: TextOps)
      ensures this.ops == ops && hits == map[]
    {
      this.ops := ops;
      hits := map[];
    }

    method OnSSDP(ip: Addr, server: Text, st: Text, usn: Text, location: Text)
      modifies this
      ensures hits == Hear(old(hits), SSDPReply(ip, server, st, usn, location), ops)
    {
      hide AppendEach;
      var hit := if ip in hits then hits[ip] else EMPTY;
      var sources := AppendSource(hit.sources, [SourceName(SSDP)], ops);
      hit := hit.(sources := sources);
      if hit.ssdpServer == [] {
        hit := hit.(ssdpServer := server);
      }
      if hit.upnpType == [] {
        hit := hit.(upnpType := FirstNonEmpty(st, usn, ops));
      }
      if hit.upnpLocation == [] {
        hit := hit.(upnpLocation := location);
      }
      hits := hits[ip := hit];
    }

    method OnMDNS(data: Octets, sanitize: Octets -> Octets)
      requires ReadMDNS(data, sanitize).Returns?
      modifies this
      ensures hits == Hear(old(hits), MDNSPacket(ReadMDNS(data, sanitize).value), ops)
    {
      hide Merge, LocalStep, NamesOf;
      var packet, ok := DnsPacket.ParseDNSPacket(data);
      if !ok {
        return;
      }
      var local := CollectLocal(data, packet.records, sanitize);
      MergeLocal(local);
    }

    method MergeLocal(local: map<Addr, Hit>)
      modifies this
      ensures hits == map ip | ip in old(hits).Keys + local.Keys ::
                        if ip in local then Merge(HitAt(old(hits), ip), local[ip], ops) else old(hits)[ip]
    {
      hide Merge;
      var todo := local.Keys;
      while todo != {}
        invariant todo <= local.Keys
        invariant forall ip :: ip in hits <==> ip in old(hits) || (ip in local && ip !in todo)
        invariant forall ip | ip in hits ::
                    hits[ip]
                    == if ip in local && ip !in todo then Merge(HitAt(old(hits), ip), local[ip], ops) else old(hits)[ip]
      {
        var ip :| ip in todo;
        todo := todo - {ip};
        var hit := MergeDiscoveryHit(if ip in hits then hits[ip] else EMPTY, local[ip], ops);
        hits := hits[ip := hit];
      }
    }

    /** The loop over the records of one packet. */
    method CollectLocal(data: Octets, records: seq<DnsPacket.Record>, sanitize: Octets -> Octets)
      returns (local: map<Addr, Hit>)
      requires AllNamed(data, records, sanitize)
      ensures local == Local(NamesOf(data, records, sanitize), ops)
    {
      local := map[];
      for i := 0 to |records|
        invariant AllNamed(data, records[..i], sanitize)
        invariant local == Local(NamesOf(data, records[..i], sanitize), ops)
      {
        assert records[i] in records;
        LocalNext(data, records, i, sanitize, ops);
        hide Local, NamesOf, AllNamed, NameRecordOf, LocalStep;
        local := HearRecord(local, data, records[i], sanitize);
      }
      assert records[..|records|] == records;
    }

    method HearRecord(local: map<Addr, Hit>, data: Octets, rec: DnsPacket.Record, sanitize: Octets -> Octets)
      returns (r: map<Addr, Hit>)
      requires RecordName(data, rec, sanitize).Returns?
      ensures r == LocalSteps(local, NameRecordOf(data, rec, sanitize), ops)
    {
      hide AppendUnique, AppendEach, IsService, HasSuffix, WithoutDot;
      r := local;
      if rec.rtype == TYPE_A {
        var ip := RecordIPv4(rec);
        if ip.None? {
          return;
        }
        var name := WithoutDot(rec.name);
        var hit := if ip.value in local then local[ip.value] else EMPTY;
        var list := AppendSource(hit.sources, [SourceName(MDNS)], ops);
        hit := hit.(sources := list);
        if HasSuffix(ops.lower(name), DOT_LOCAL) && hit.mdnsName == [] {
          hit := hit.(mdnsName := name);
        }
        if IsService(name) {
          list := AppendUniqueStrings(hit.mdnsServices, [name], ops);
          hit := hit.(mdnsServices := list);
        }
        r := local[ip.value := hit];
      } else if rec.rtype == TYPE_PTR || rec.rtype == TYPE_SRV {
        var name := DNSRecordName(data, rec, sanitize);
        if name == [] {
          return;
        }
        if IsService(name) {
          r := AddService(local, name);
        }
      }
    }

    /** A service is added to every address seen so far. */
    method AddService(local: map<Addr, Hit>, name: Text) returns (r: map<Addr, Hit>)
      ensures r == map ip | ip in local :: local[ip].(mdnsServices := AppendUnique(local[ip].mdnsServices, [name], ops))
    {
      hide AppendUnique;
      r := local;
      var todo := local.Keys;
      while todo != {}
        invariant todo <= local.Keys == r.Keys
        invariant forall ip | ip in local ::
                    r[ip] == if ip in todo then local[ip]
                             else local[ip].(mdnsServices := AppendUnique(local[ip].mdnsServices, [name], ops))
      {
        var ip :| ip in todo;
        todo := todo - {ip};
        var list := AppendUniqueStrings(r[ip].mdnsServices, [name], ops);
        r := r[ip := r[ip].(mdnsServices := list)];
      }
    }

    method OnLLMNR(data: Octets)
      requires ReadLLMNR(data).Returns?
      modifies this
      ensures hits == Hear(old(hits), LLMNRPacket(ReadLLMNR(data).value), ops)
    {
      hide Named, NamesByIP, AddressNames;
      assert NamesByIP([]) == map[] by {
        NoNames();
      }
      var packet, ok := DnsPacket.ParseDNSPacket(data);
      if !ok {
        return;
      }
      var namesByIP := CollectNames(packet.records);
      MergeNames(namesByIP);
    }

    method MergeNames(namesByIP: map<Addr, Text>)
      modifies this
      ensures hits == map ip | ip in old(hits).Keys + namesByIP.Keys ::
                        if ip in namesByIP then Named(HitAt(old(hits), ip), namesByIP[ip], ops) else old(hits)[ip]
    {
      hide AppendEach;
      var todo := namesByIP.Keys;
      while todo != {}
        invariant todo <= namesByIP.Keys
        invariant forall ip :: ip in hits <==> ip in old(hits) || (ip in namesByIP && ip !in todo)
        invariant forall ip | ip in hits ::
                    hits[ip] == if ip in namesByIP && ip !in todo then Named(HitAt(old(hits), ip), namesByIP[ip], ops)
                                else old(hits)[ip]
      {
        var ip :| ip in todo;
        todo := todo - {ip};
        var hit := if ip in hits then hits[ip] else EMPTY;
        var list := AppendSource(hit.sources, [SourceName(LLMNR)], ops);
        hit := hit.(sources := list);
        if hit.llmnrName == [] {
          hit := hit.(llmnrName := namesByIP[ip]);
        }
        hits := hits[ip := hit];
      }
    }

    static method CollectNames(records: seq<DnsPacket.Record>) returns (m: map<Addr, Text>)
      ensures m == NamesByIP(AddressNames(records))
    {
      m := map[];
      for i := 0 to |records|
        invariant m == NamesByIP(AddressNames(records[..i]))
      {
        NamesNext(records, i);
        hide NamesByIP, AddressNames, WithoutDot;
        var ip := RecordIPv4(records[i]);
        if ip.None? {
          continue;
        }
        var name := WithoutDot(records[i].name);
        if name == [] {
          continue;
        }
        m := m[ip.value := name];
      }
      assert records[..|records|] == records;
    }

    method OnWSD(ip: Addr, types: seq<Text>, xaddrs: seq<Text>, scopes: seq<Text>)
      modifies this
      ensures hits == Hear(old(hits), WSDReply(ip, types, xaddrs, scopes), ops)
    {
      hide AppendUnique, AppendEach;
      var hit := if ip in hits then hits[ip] else EMPTY;
      var list := AppendSource(hit.sources, [SourceName(WSD)], ops);
      hit := hit.(sources := list);
      list := AppendUniqueStrings(hit.wsdTypes, types, ops);
      hit := hit.(wsdTypes := list);
      list := AppendUniqueStrings(hit.wsdXAddrs, xaddrs, ops);
      hit := hit.(wsdXAddrs := list);
      list := AppendUniqueStrings(hit.wsdScopes, scopes, ops);
      hit := hit.(wsdScopes := list);
      hits := hits[ip := hit];
    }
  }

  /** The effect of at most one record. */
  function LocalSteps(local: map<Addr, Hit>, names: seq<NameRecord>, ops: TextOps): (r: map<Addr, Hit>)
    requires |names| <= 1
  {
    if names == [] then local else LocalStep(local, names[0], ops)
  }

  lemma LocalNext(data: Octets, records: seq<DnsPacket.Record>, i: nat, sanitize: Octets -> Octets, ops: TextOps)
    requires i < |records| && AllNamed(data, records, sanitize)
    ensures AllNamed(data, records[..i], sanitize) && AllNamed(data, records[..i + 1], sanitize)
    ensures records[i] in records
    ensures Local(NamesOf(data, records[..i + 1], sanitize), ops)
         == LocalSteps(Local(NamesOf(data, records[..i], sanitize), ops), NameRecordOf(data, records[i], sanitize), ops)
  {
    assert records[..i + 1][..i] == records[..i];
    hide RecordName, WithoutDot, LocalStep, Local, LocalSteps, NameRecordOf;
    LocalMore(NamesOf(data, records[..i], sanitize), NameRecordOf(data, records[i], sanitize), ops);
  }

  lemma LocalMore(names: seq<NameRecord>, more: seq<NameRecord>, ops: TextOps)
    requires |more| <= 1
    ensures Local(names + more, ops) == LocalSteps(Local(names, ops), more, ops)
  {
    hide LocalStep;
    if more == [] {
      assert names + [] == names;
    } else {
      assert more == [more[0]] && (names + more)[..|names|] == names;
    }
  }

  lemma NamesNext(records: seq<DnsPacket.Record>, i: nat)
    requires i < |records|
    ensures var (ip, m) := (RecordIPv4(records[i]), NamesByIP(AddressNames(records[..i])));
            var name := WithoutDot(records[i].name);
            NamesByIP(AddressNames(records[..i + 1])) == if ip.None? || name == [] then m else m[ip.value := name]
  {
    assert records[..i + 1][..i] == records[..i];
    hide WithoutDot;
    var names := AddressNames(records[..i]);
    assert names + [] == names;
    if RecordIPv4(records[i]).Some? {
      var more := names + [(RecordIPv4(records[i]).value, WithoutDot(records[i].name))];
      assert more[..|names|] == names;
    }
  }

  lemma NoNames()
    ensures NamesByIP([]) == map[]
  {
  }

  // ---- what a packet says of one address ----

  predicate GivesName(rec: NameRecord, ip: Addr, ops: TextOps) {
    rec.Address? && rec.ip == ip && rec.name != [] && HasSuffix(ops.lower(rec.name), DOT_LOCAL)
  }

  lemma LocalStepName(local: map<Addr, Hit>, rec: NameRecord, ip: Addr, ops: TextOps)
    ensures ip in LocalStep(local, rec, ops) <==> ip in local || (rec.Address? && rec.ip == ip)
    ensures ip in LocalStep(local, rec, ops) ==>
              var before := HitAt(local, ip).mdnsName;
              LocalStep(local, rec, ops)[ip].mdnsName == if GivesName(rec, ip,
                        ops) && before == [] then rec.name else before
  {
    hide IsService, AppendUnique, AppendEach, HasSuffix;
  }

  /** The addresses in a packet give its hits; one for which no record ends in ".local" gets no name. */
  lemma {:induction false} LocalAddresses(records: seq<NameRecord>, ip: Addr, ops: TextOps)
    ensures ip in Local(records, ops) <==> exists r | r in records :: r.Address? && r.ip == ip
    ensures ip in Local(records, ops) && (forall r | r in records :: !GivesName(r, ip, ops)) ==>
              Local(records, ops)[ip].mdnsName == []
  {
    if records != [] {
      var front, last := records[..|records| - 1], records[|records| - 1];
      LocalAddresses(front, ip, ops);
      LocalStepName(Local(front, ops), last, ip, ops);
      assert records == front + [last];
      hide LocalStep, GivesName;
    }
  }

  /** Of several names ending in ".local" the first is kept. */
  lemma {:induction false} FirstNameWins(records: seq<NameRecord>, i: nat, ip: Addr, ops: TextOps)
    requires i < |records| && GivesName(records[i], ip, ops)
    requires forall k | 0 <= k < i :: !GivesName(records[k], ip, ops)
    ensures ip in Local(records, ops) && Local(records, ops)[ip].mdnsName == records[i].name != []
  {
    var front, last := records[..|records| - 1], records[|records| - 1];
    LocalStepName(Local(front, ops), last, ip, ops);
    if i < |front| {
      FirstNameWins(front, i, ip, ops);
    } else {
      LocalAddresses(front, ip, ops);
      assert forall r | r in front :: !GivesName(r, ip, ops);
    }
    hide LocalStep;
  }

  /** The hits of a first printed packet are the addresses it announces. */
  lemma PrintedAddressesAreHits(form: DnsPacket.Form, all: seq<Announcement>, after: Octets,
                                sanitize: Octets -> Octets, ip: Addr, ops: TextOps)
    requires form.Valid() && WrittenAs(form.entries, all)
    requires form.Missing() > 0 ==> |after| < 10 && DnsName.Acyclic(form.Bytes() + after, |form.Bytes()|)
    requires form.Resolves(form.Bytes() + after) && AllValid(all, form.Bytes() + after)
    ensures var heard := ReadMDNS(form.Bytes() + after, sanitize);
            && heard.Returns?
            && (ip in Hear(map[], MDNSPacket(heard.value), ops) <==> exists a | a in all :: a.body == A(ip))
  {
    var data := form.Bytes() + after;
    PrintedMDNSRead(form, all, after, sanitize);
    hide DnsPacket.Form.Bytes, DnsPacket.Form.Valid, ReadMDNS, AllValid, Local;
    var records := AllSay(all, data, sanitize);
    LocalAddresses(records, ip, ops);
    AddressesSaid(all, data, sanitize, ip);
  }

  lemma {:induction false} NoNameOf(names: seq<(Addr, Text)>, ip: Addr)
    requires forall n | n in names :: n.0 != ip || n.1 == []
    ensures ip !in NamesByIP(names)
  {
    if names != [] {
      assert names[|names| - 1] in names;
      NoNameOf(names[..|names| - 1], ip);
    }
  }

  /** Of the names an LLMNR packet gives for an address, the last that is not empty counts. */
  lemma {:induction false} LastNameCounts(names: seq<(Addr, Text)>, i: nat, ip: Addr)
    requires i < |names| && names[i].0 == ip && names[i].1 != []
    requires forall k | i < k < |names| :: names[k].0 != ip || names[k].1 == []
    ensures ip in NamesByIP(names) && NamesByIP(names)[ip] == names[i].1
  {
    if i < |names| - 1 {
      LastNameCounts(names[..|names| - 1], i, ip);
    }
  }

  /** A service name holds "._tcp." or "._udp.", at its ends or inside. */
  lemma ServiceNames(name: Text)
    ensures IsService(name)
       <==> || (exists a: Text, b: Text :: name == a + [46, 95, 116, 99, 112, 46] + b)
            || (exists a: Text, b: Text :: name == a + [46, 95, 117, 100, 112, 46] + b)
  {
    HoldsPart(name, DOT_TCP);
    HoldsPart(name, DOT_UDP);
    hide Contains;
  }

  lemma HoldsPart(name: Text, part: Text)
    ensures Contains(name, part) <==> exists a: Text, b: Text :: name == a + part + b
  {
    if i :| 0 <= i <= |name| && StandsAt(name, i, part) {
      assert name == name[..i] + part + name[i + |part|..];
    }
    if a: Text, b: Text :| name == a + part + b {
      assert StandsAt(name, |a|, part) by {
        assert name[|a|..|a| + |part|] == part;
      }
    }
  }

  lemma LocalNames(name: Text)
    ensures HasSuffix(name, DOT_LOCAL) <==> exists a: Text :: name == a + [46, 108, 111, 99, 97, 108]
  {
    if HasSuffix(name, DOT_LOCAL) {
      assert name == name[..|name| - 6] + DOT_LOCAL;
    }
    if a: Text :| name == a + DOT_LOCAL {
      assert name[|a|..] == DOT_LOCAL;
    }
  }

  // ---- which text a protocol keeps ----

  /** The text a packet has for a field of an address; none is the empty text. */
  function Gives(p: Packet, ip: Addr, f: TextField, ops: TextOps): (t: Text) {
    match (p, f)
    case (SSDPReply(i, server, _, _, _), SsdpServer) => if i == ip then server else []
    case (SSDPReply(i, _, st, usn, _), UpnpType) =>
      if i != ip then [] else if ops.trim(st) != [] then ops.trim(st) else ops.trim(usn)
    case (SSDPReply(i, _, _, _, location), UpnpLocation) => if i == ip then location else []
    case (MDNSPacket(records), MdnsName) => HitAt(Local(records, ops), ip).mdnsName
    case (LLMNRPacket(names), LlmnrName) => if ip in NamesByIP(names) then NamesByIP(names)[ip] else []
    case _ => []
  }

  lemma {:induction false} LocalHasNoTexts(records: seq<NameRecord>, ip: Addr, f: TextField, ops: TextOps)
    requires f != MdnsName
    ensures TextOf(HitAt(Local(records, ops), ip), f) == []
  {
    if records != [] {
      LocalHasNoTexts(records[..|records| - 1], ip, f, ops);
      hide AppendUnique, AppendEach, IsService, HasSuffix;
    }
  }

  /** A packet fills a field of an address only if that is empty, and then with the text it has. */
  lemma HearKeepsText(hits: map<Addr, Hit>, p: Packet, ip: Addr, f: TextField, ops: TextOps)
    ensures var (before, after) := (TextOf(HitAt(hits, ip), f), TextOf(HitAt(Hear(hits, p, ops), ip), f));
            after == if before != [] then before else Gives(p, ip, f, ops)
  {
    match p
    case MDNSPacket(records) =>
      var local := HitAt(Local(records, ops), ip);
      if f != MdnsName {
        LocalHasNoTexts(records, ip, f, ops);
      }
      MergeKeepsText(HitAt(hits, ip), local, f, ops);
      hide Local, Merge;
    case _ =>
      hide NamesByIP, AppendEach, AppendUnique;
  }

  /** The text the protocol has for a field of an address. */
  function TextHeard(packets: seq<Packet>, ip: Addr, f: TextField, ops: TextOps): (t: Text) {
    TextOf(HitAt(Listen(packets, ops), ip), f)
  }

  lemma HeardNext(packets: seq<Packet>, ip: Addr, f: TextField, ops: TextOps)
    requires packets != []
    ensures var (before, last) := (TextHeard(packets[..|packets| - 1], ip, f, ops), packets[|packets| - 1]);
            TextHeard(packets, ip, f, ops) == if before != [] then before else Gives(last, ip, f, ops)
  {
    HearKeepsText(Listen(packets[..|packets| - 1], ops), packets[|packets| - 1], ip, f, ops);
    hide Hear, Gives, TextOf, HitAt;
  }

  lemma {:induction false} NothingGiven(packets: seq<Packet>, ip: Addr, f: TextField, ops: TextOps)
    requires forall p | p in packets :: Gives(p, ip, f, ops) == []
    ensures TextHeard(packets, ip, f, ops) == []
  {
    if packets != [] {
      assert packets[|packets| - 1] in packets && forall p | p in packets[..|packets| - 1] :: p in packets;
      hide TextHeard, Gives;
      NothingGiven(packets[..|packets| - 1], ip, f, ops);
      HeardNext(packets, ip, f, ops);
    }
  }

  /** Of all packets a protocol has heard, the first that has a text for a field of an address decides it. */
  lemma {:induction false} FirstPacketDecides(packets: seq<Packet>, i: nat, ip: Addr, f: TextField, ops: TextOps)
    requires i < |packets| && Gives(packets[i], ip, f, ops) != []
    requires forall k | 0 <= k < i :: Gives(packets[k], ip, f, ops) == []
    ensures TextHeard(packets, ip, f, ops) == Gives(packets[i], ip, f, ops)
  {
    hide TextHeard, Gives;
    var front := packets[..|packets| - 1];
    HeardNext(packets, ip, f, ops);
    if i < |front| {
      FirstPacketDecides(front, i, ip, f, ops);
    } else {
      assert front == packets[..i];
      NothingGiven(front, ip, f, ops);
    }
  }

  /** An mDNS name is that of the first record, in the first packet, that gives the address one. */
  lemma FirstMDNSName(packets: seq<Packet>, i: nat, records: seq<NameRecord>, j: nat, ip: Addr, ops: TextOps)
    requires i < |packets| && packets[i] == MDNSPacket(records)
    requires j < |records| && GivesName(records[j], ip, ops)
    requires forall k | 0 <= k < j :: !GivesName(records[k], ip, ops)
    requires forall k | 0 <= k < i && packets[k].MDNSPacket? ::
               forall r | r in packets[k].records :: !GivesName(r, ip, ops)
    ensures ip in Listen(packets, ops) && Listen(packets, ops)[ip].mdnsName == records[j].name
  {
    FirstNameWins(records, j, ip, ops);
    forall k | 0 <= k < i ensures Gives(packets[k], ip, MdnsName, ops) == [] {
      if packets[k].MDNSPacket? {
        LocalAddresses(packets[k].records, ip, ops);
      }
      hide Local, GivesName;
    }
    hide Local, Listen, GivesName;
    FirstPacketDecides(packets, i, ip, MdnsName, ops);
  }

  /** An LLMNR name is the last one in the first packet that gives the address one. */
  lemma FirstLLMNRPacket(packets: seq<Packet>, i: nat, names: seq<(Addr, Text)>, j: nat, ip: Addr, ops: TextOps)
    requires i < |packets| && packets[i] == LLMNRPacket(names)
    requires j < |names| && names[j].0 == ip && names[j].1 != []
    requires forall k | j < k < |names| :: names[k].0 != ip || names[k].1 == []
    requires forall k | 0 <= k < i && packets[k].LLMNRPacket? ::
               forall n | n in packets[k].names :: n.0 != ip || n.1 == []
    ensures ip in Listen(packets, ops) && Listen(packets, ops)[ip].llmnrName == names[j].1
  {
    LastNameCounts(names, j, ip);
    forall k | 0 <= k < i ensures Gives(packets[k], ip, LlmnrName, ops) == [] {
      if packets[k].LLMNRPacket? {
        NoNameOf(packets[k].names, ip);
      }
      hide NamesByIP;
    }
    hide NamesByIP, Listen;
    FirstPacketDecides(packets, i, ip, LlmnrName, ops);
  }

  // ---- which entries a protocol keeps ----

  /** A reply names its protocol as a source. */
  lemma SSDPAdds(hits: map<Addr, Hit>, p: Packet, key: Text, ops: TextOps)
    requires p.SSDPReply? && Sane(ops) && NormalHit(HitAt(hits, p.ip), ops)
    ensures p.ip in Hear(hits, p, ops)
    ensures var (before, after) := (HitAt(hits, p.ip), Hear(hits, p, ops)[p.ip]);
            && Added(before.sources, [SSDP_SOURCE], after.sources, key, ops)
            && after.wsdTypes == before.wsdTypes && after.wsdXAddrs == before.wsdXAddrs
            && after.wsdScopes == before.wsdScopes && after.mdnsServices == before.mdnsServices
  {
    var before := HitAt(hits, p.ip);
    AppendedEach(before.sources, SSDP_SOURCE, ops);
    hide AppendEach, AppendUnique;
    ValuesAdded(before.sources, [SSDP_SOURCE], key, ops);
    hide Normal, Entry, FirstValue, Sane, Added;
  }

  /** A WS-Discovery reply does that too, and adds to the three lists. */
  lemma WSDAdds(hits: map<Addr, Hit>, p: Packet, key: Text, ops: TextOps)
    requires p.WSDReply? && Sane(ops) && NormalHit(HitAt(hits, p.ip), ops)
    ensures p.ip in Hear(hits, p, ops)
    ensures var (before, after) := (HitAt(hits, p.ip), Hear(hits, p, ops)[p.ip]);
            && Added(before.sources, [WSD_SOURCE], after.sources, key, ops)
            && Added(before.wsdTypes, p.types, after.wsdTypes, key, ops)
            && Added(before.wsdXAddrs, p.xaddrs, after.wsdXAddrs, key, ops)
            && Added(before.wsdScopes, p.scopes, after.wsdScopes, key, ops)
            && after.mdnsServices == before.mdnsServices
  {
    var before := HitAt(hits, p.ip);
    AppendedEach(before.sources, WSD_SOURCE, ops);
    hide AppendEach, AppendUnique;
    ValuesAdded(before.sources, [WSD_SOURCE], key, ops);
    ValuesAdded(before.wsdTypes, p.types, key, ops);
    ValuesAdded(before.wsdXAddrs, p.xaddrs, key, ops);
    ValuesAdded(before.wsdScopes, p.scopes, key, ops);
    hide Normal, Entry, FirstValue, Sane, Added;
  }

  const SSDP_SOURCE: Text := [115, 115, 100, 112] // "ssdp"
  const WSD_SOURCE: Text := [119, 115, 100]       // "wsd"

  /** The entry of the key is the one there was, or else the first that was added. */
  ghost predicate Added(before: seq<Text>, values: seq<Text>, after: seq<Text>, key: Text, ops: TextOps) {
    Entry(after, key, ops)
    == if Entry(before, key, ops).Some? then Entry(before, key, ops) else FirstValue(values, key, ops)
  }

  lemma ValuesAdded(list: seq<Text>, values: seq<Text>, key: Text, ops: TextOps)
    requires Normal(list, ops) && Sane(ops)
    ensures Added(list, values, AppendUnique(list, values, ops), key, ops)
  {
    AppendUniqueEntries(list, values, key, ops);
    hide AppendUnique;
  }

  lemma AppendedEach(list: seq<Text>, value: Text, ops: TextOps)
    ensures AppendEach(list, [value], ops) == AppendUnique(list, [value], ops)
  {
    assert [value][..0] == [];
    assert AppendEach(list, [], ops) == list;
    hide AppendUnique;
  }

  /** The j-th record gives the address a service with that key: its own name, or that of a pointer behind it. */
  ghost predicate GivesService(records: seq<NameRecord>, j: nat, ip: Addr, key: Text, ops: TextOps)
    requires j < |records|
  {
    && IsService(records[j].name) && Brings(records[j].name, key, ops)
    && match records[j]
       case Address(i, _) => i == ip
       case Pointer(_) => exists k | 0 <= k < j :: records[k].Address? && records[k].ip == ip
  }

  lemma AppendedKey(list: seq<Text>, value: Text, key: Text, ops: TextOps)
    ensures HasKey(AppendUnique(list, [value], ops), key, ops) <==> HasKey(list, key, ops) || Brings(value, key, ops)
  {
    assert [value][..0] == [] && Gather(list, [], ops) == list;
    var gathered := Gather(list, [value], ops);
    HasKeySnoc(list, ops.trim(value), ops);
    assert HasKey(gathered, key, ops) <==> HasKey(list, key, ops) || Brings(value, key, ops);
    SortPermutes(gathered, TextLeq);
    KeysOfBag(gathered, Sort(gathered, TextLeq), key, ops);
  }

  lemma KeysOfBag(a: seq<Text>, b: seq<Text>, key: Text, ops: TextOps)
    requires multiset(a) == multiset(b)
    ensures HasKey(a, key, ops) <==> HasKey(b, key, ops)
  {
    forall x ensures x in a <==> x in b {
      assert x in multiset(a) <==> x in multiset(b);
    }
    if i :| 0 <= i < |a| && ops.lower(a[i]) == key {
      assert a[i] in b;
    }
    if i :| 0 <= i < |b| && ops.lower(b[i]) == key {
      assert b[i] in a;
    }
  }

  /** An mDNS packet gives an address the service names in its own records and in the pointers behind its first. */
  lemma {:induction false} LocalServices(records: seq<NameRecord>, ip: Addr, key: Text, ops: TextOps)
    ensures HasKey(HitAt(Local(records, ops), ip).mdnsServices, key, ops)
       <==> exists j | 0 <= j < |records| :: GivesService(records, j, ip, key, ops)
  {
    if records != [] {
      var front, last := records[..|records| - 1], records[|records| - 1];
      LocalServices(front, ip, key, ops);
      LocalAddresses(front, ip, ops);
      LocalStepServices(front, last, ip, key, ops);
      assert Local(records, ops) == LocalStep(Local(front, ops), last, ops);
      hide Local, HasKey, IsService, Brings, LocalStep;
      assert forall k | 0 <= k < |front| :: front[k] == records[k];
      assert (exists k | 0 <= k < |front| :: records[k].Address? && records[k].ip == ip)
        <==> exists r | r in front :: r.Address? && r.ip == ip;
      forall j | 0 <= j < |front|
        ensures GivesService(front, j, ip, key, ops) <==> GivesService(records, j, ip, key, ops)
      {
      }
      var here := GivesService(records, |front|, ip, key, ops);
      hide GivesService;
      assert (exists j | 0 <= j < |records| :: GivesService(records, j, ip, key, ops))
        <==> here || exists j | 0 <= j < |front| :: GivesService(front, j, ip, key, ops);
    }
  }

  lemma LocalStepServices(front: seq<NameRecord>, last: NameRecord, ip: Addr, key: Text, ops: TextOps)
    ensures var (before, after) := (Local(front, ops), LocalStep(Local(front, ops), last, ops));
            HasKey(HitAt(after, ip).mdnsServices, key, ops)
            <==> || HasKey(HitAt(before, ip).mdnsServices, key, ops)
                 || (IsService(last.name) && Brings(last.name, key, ops)
                     && if last.Address? then last.ip == ip else ip in before)
  {
    AppendedKey(HitAt(Local(front, ops), ip).mdnsServices, last.name, key, ops);
    hide Local, AppendUnique, AppendEach, HasSuffix, HasKey;
  }

  // ---- the form of what a protocol reports ----

  /** Nothing yet, or a hit of the protocol with clean, sorted lists. */
  ghost predicate Growing(p: Protocol, h: Hit, ops: TextOps) {
    h == EMPTY || (HitOf(p, h) && NormalHit(h, ops))
  }

  ghost predicate AllHitsOf(p: Protocol, hits: map<Addr, Hit>, ops: TextOps) {
    forall ip | ip in hits :: HitOf(p, hits[ip]) && NormalHit(hits[ip], ops)
  }

  ghost predicate Assumed(ops: TextOps) {
    Sane(ops) && NamesApart(ops) && NamesPlain(ops)
  }

  lemma OneSource(p: Protocol, list: seq<Text>, ops: TextOps)
    requires Assumed(ops) && (list == [] || list == [SourceName(p)])
    ensures AppendEach(list, [SourceName(p)], ops) == [SourceName(p)] && Normal([SourceName(p)], ops)
  {
    var one := [SourceName(p)];
    assert ops.trim(SourceName(p)) == SourceName(p);
    assert Normal(one, ops);
    EmptyNormal(ops);
    hide Normal, AppendUnique, AppendEach, SourceName, Sane;
    AppendEachIsAppendUnique(list, one, ops);
    AppendIdempotent(one, ops);
  }

  lemma ListStaysNormal(list: seq<Text>, values: seq<Text>, ops: TextOps)
    requires Normal(list, ops) && Sane(ops)
    ensures Normal(AppendUnique(list, values, ops), ops)
  {
    AppendUniqueEntries(list, values, [], ops);
  }

  lemma SourceGrows(p: Protocol, h: Hit, ops: TextOps)
    requires Assumed(ops) && Growing(p, h, ops)
    ensures HitOf(p, WithSource(h, p, ops)) && NormalHit(WithSource(h, p, ops), ops)
  {
    OneSource(p, h.sources, ops);
    EmptyNormal(ops);
    hide Normal, AppendEach, SourceName, Sane;
  }

  lemma LocalStepKeeps(local: map<Addr, Hit>, rec: NameRecord, ops: TextOps)
    requires Assumed(ops) && AllHitsOf(MDNS, local, ops)
    ensures AllHitsOf(MDNS, LocalStep(local, rec, ops), ops)
  {
    match rec
    case Address(ip, name) =>
      var h := HitAt(local, ip);
      SourceGrows(MDNS, h, ops);
      hide Normal, AppendUnique, AppendEach, IsService, HasSuffix, Sane, SourceName;
      ListStaysNormal(WithSource(h, MDNS, ops).mdnsServices, [name], ops);
    case Pointer(name) =>
      hide Normal, AppendUnique, IsService, Sane, SourceName;
      forall ip | ip in local ensures Normal(AppendUnique(local[ip].mdnsServices, [name], ops), ops) {
        ListStaysNormal(local[ip].mdnsServices, [name], ops);
      }
  }

  lemma {:induction false} LocalKeeps(records: seq<NameRecord>, ops: TextOps)
    requires Assumed(ops)
    ensures AllHitsOf(MDNS, Local(records, ops), ops)
  {
    if records != [] {
      LocalKeeps(records[..|records| - 1], ops);
      hide AllHitsOf, LocalStep, Assumed;
      LocalStepKeeps(Local(records[..|records| - 1], ops), records[|records| - 1], ops);
    }
  }

  lemma MergeGrows(h: Hit, local: Hit, ops: TextOps)
    requires Assumed(ops) && Growing(MDNS, h, ops) && HitOf(MDNS, local) && NormalHit(local, ops)
    ensures HitOf(MDNS, Merge(h, local, ops)) && NormalHit(Merge(h, local, ops), ops)
  {
    OneSource(MDNS, h.sources, ops);
    EmptyNormal(ops);
    assert NormalHit(h, ops);
    MergeKeepsNormal(h, local, ops);
    AppendIdempotent([], ops);
    hide Normal, AppendEach, AppendUnique, SourceName, Sane;
  }

  /** A packet of a protocol fills that protocol's fields only, and keeps its lists clean and sorted. */
  lemma HearKeeps(hits: map<Addr, Hit>, p: Packet, ops: TextOps)
    requires Assumed(ops) && AllHitsOf(ProtocolOf(p), hits, ops)
    ensures AllHitsOf(ProtocolOf(p), Hear(hits, p, ops), ops)
  {
    hide Normal, AppendUnique, AppendEach, Sane, SourceName, Local, NamesByIP, Merge;
    match p
    case SSDPReply(ip, _, _, _, _) =>
      SourceGrows(SSDP, HitAt(hits, ip), ops);
    case WSDReply(ip, types, xaddrs, scopes) =>
      SourceGrows(WSD, HitAt(hits, ip), ops);
      var h := WithSource(HitAt(hits, ip), WSD, ops);
      ListStaysNormal(h.wsdTypes, types, ops);
      ListStaysNormal(h.wsdXAddrs, xaddrs, ops);
      ListStaysNormal(h.wsdScopes, scopes, ops);
    case LLMNRPacket(names) =>
      forall ip | ip in NamesByIP(names)
        ensures HitOf(LLMNR, WithSource(HitAt(hits, ip), LLMNR, ops))
                && NormalHit(WithSource(HitAt(hits, ip), LLMNR, ops), ops)
      {
        SourceGrows(LLMNR, HitAt(hits, ip), ops);
      }
    case MDNSPacket(records) =>
      LocalKeeps(records, ops);
      var local := Local(records, ops);
      forall ip | ip in local
        ensures HitOf(MDNS, Merge(HitAt(hits, ip), local[ip], ops))
                && NormalHit(Merge(HitAt(hits, ip), local[ip], ops), ops)
      {
        MergeGrows(HitAt(hits, ip), local[ip], ops);
      }
      hide HitOf, NormalHit;
  }

  /** Whatever a protocol hears, its report has the form that makes the merge independent of order. */
  lemma {:induction false} ListenIsHonest(p: Protocol, packets: seq<Packet>, ops: TextOps)
    requires Assumed(ops) && forall k | k in packets :: ProtocolOf(k) == p
    ensures AllHitsOf(p, Listen(packets, ops), ops)
  {
    if packets != [] {
      var front, last := packets[..|packets| - 1], packets[|packets| - 1];
      assert last in packets && forall k | k in front :: k in packets;
      ListenIsHonest(p, front, ops);
      hide AllHitsOf, Hear, Assumed;
      HearKeeps(Listen(front, ops), last, ops);
    }
  }

  /** So its hits name the protocol, and nothing else, as their source: "ssdp", "mdns", "llmnr" or "wsd". */
  lemma SourceNamed(p: Protocol, packets: seq<Packet>, ip: Addr, ops: TextOps)
    requires Assumed(ops) && (forall k | k in packets :: ProtocolOf(k) == p) && ip in Listen(packets, ops)
    ensures Listen(packets, ops)[ip].sources == [match p
                                                 case SSDP => [115, 115, 100, 112]
                                                 case MDNS => [109, 100, 110, 115]
                                                 case LLMNR => [108, 108, 109, 110, 114]
                                                 case WSD => [119, 115, 100]]
  {
    ListenIsHonest(p, packets, ops);
    hide Listen, Assumed, Normal;
  }

  // ---- whole discovery runs ----

  /** A protocol that was switched on, and the packets it has heard. */
  datatype Heard = Heard(protocol: Protocol, packets: seq<Packet>)

  function Partials(heard: seq<Heard>, ops: TextOps): (partials: seq<map<Addr, Hit>>)
    ensures |partials| == |heard| && forall i | 0 <= i < |heard| :: partials[i] == Listen(heard[i].packets, ops)
  {
    seq(|heard|, i requires 0 <= i < |heard| => Listen(heard[i].packets, ops))
  }

  lemma {:induction false} PartialsPermuted(a: seq<Heard>, b: seq<Heard>, ops: TextOps)
    requires multiset(a) == multiset(b)
    ensures multiset(Partials(a, ops)) == multiset(Partials(b, ops))
    decreases |a|
  {
    hide Listen;
    if b == [] {
      assert |multiset(a)| == 0;
      assert a == b;
    } else {
      var i := TakeLastOut(a, b);
      var n := |b| - 1;
      PartialsPermuted(a[..i] + a[i + 1..], b[..n], ops);
      var (pa, pb) := (Partials(a, ops), Partials(b, ops));
      hide Partials;
      PartialsWithout(a, i, ops);
      PartialsWithout(b, n, ops);
      assert b[..n] + b[n + 1..] == b[..n];
      TakenOut(pa, i);
      TakenOut(pb, n);
    }
  }

  lemma PartialsWithout(heard: seq<Heard>, i: nat, ops: TextOps)
    requires i < |heard|
    ensures Partials(heard[..i] + heard[i + 1..], ops) == Partials(heard, ops)[..i] + Partials(heard, ops)[i + 1..]
  {
    hide Listen, Partials;
  }

  /**
   * The hits of a discovery run do not depend on which protocol finishes first: whatever packets the
   * protocols hear, any order of merging their reports gives the same result.
   */
  lemma CompletionOrderDoesNotMatter(a: seq<Heard>, b: seq<Heard>, net: Net, ops: TextOps)
    requires net.ones <= 32 && Assumed(ops) && multiset(a) == multiset(b)
    requires forall h | h in a :: forall k | k in h.packets :: ProtocolOf(k) == h.protocol
    requires forall i, j | 0 <= i < j < |a| :: a[i].protocol != a[j].protocol
    ensures MergeAll(Partials(a, ops), net, ops) == MergeAll(Partials(b, ops), net, ops)
  {
    var reports := seq(|a|, i requires 0 <= i < |a| => Report(a[i].protocol, Listen(a[i].packets, ops)));
    var others := seq(|b|, i requires 0 <= i < |b| => Report(b[i].protocol, Listen(b[i].packets, ops)));
    forall r | r in reports ensures Honest(r, ops) {
      var i :| 0 <= i < |reports| && reports[i] == r;
      assert a[i] in a;
      ListenIsHonest(a[i].protocol, a[i].packets, ops);
    }
    hide Listen, MergeAll, Honest;
    PartialsPermuted(a, b, ops);
    assert HitMaps(reports) == Partials(a, ops) && HitMaps(others) == Partials(b, ops);
    hide Partials, HitMaps, NamesApart, Sane;
    HonestReportsInAnyOrder(reports, others, net, ops);
  }
}
