/**
 * The DNS packet walker of dnswire.go (RFC 1035 section 4.1): header, questions and resource
 * records, with names read by the decoder of DnsName.
 */
module DnsPacket {
  import opened Wrappers
  import opened Octets
  import opened DnsName

  const HEADER := 12

  datatype Record = Record(name: Octets, rtype: nat, class_: nat, ttl: nat, data: Octets, rdataOffset: nat)

  datatype Packet = Packet(id: nat, flags: nat, records: seq<Record>)

  // ---- parsing ----

  /** decodeDNSName as a total function: a name either never ends or has a result. */
  function Decode(msg: Octets, offset: nat): (r: Outcome<(Octets, nat)>) {
    if Halts(msg, offset, |msg|) then Returns(DecodeWithin(msg, offset, |msg|)) else Diverges
  }

  /** `Decode` diverges exactly for the names whose pointers run in a circle. */
  lemma DecodeDivergesIffCyclic(msg: Octets, offset: nat)
    ensures Decode(msg, offset).Diverges? <==> !Acyclic(msg, offset)
    ensures forall hops: nat | Halts(msg, offset, hops) ::
              Decode(msg, offset) == Returns(DecodeWithin(msg, offset, hops))
  {
    TerminatesIffAcyclic(msg, offset);
    forall hops: nat | Halts(msg, offset, hops)
      ensures Decode(msg, offset) == Returns(DecodeWithin(msg, offset, hops))
    {
      if hops <= |msg| {
        HopsDoNotMatter(msg, offset, hops, |msg|);
      } else {
        HopsDoNotMatter(msg, offset, |msg|, hops);
      }
    }
  }

  /** The offset behind one question; None when the message is too short for it. */
  function SkipQuestion(data: Octets, offset: nat): (r: Outcome<Option<nat>>) {
    match Decode(data, offset)
    case Diverges => Diverges
    case Returns((_, next)) => Returns(if next + 4 > |data| then None else Some(next + 4))
  }

  function SkipQuestions(data: Octets, offset: nat, n: nat): (r: Outcome<Option<nat>>)
    decreases n
  {
    if n == 0 then Returns(Some(offset))
    else match SkipQuestion(data, offset)
      case Diverges => Diverges
      case Returns(None) => Returns(None)
      case Returns(Some(next)) => SkipQuestions(data, next, n - 1)
  }

  /** One record and the offset behind it; None when it does not fit. */
  function ReadRecord(data: Octets, offset: nat): (r: Outcome<Option<(Record, nat)>>) {
    match Decode(data, offset)
    case Diverges => Diverges
    case Returns((name, next)) =>
      if next + 10 > |data| then Returns(None)
      else
        var start := next + 10;
        var end := start + Big16At(data, next + 8);
        if end > |data| then Returns(None)
        else Returns(Some((Record(name, Big16At(data, next), Big16At(data, next + 2), Big32At(data, next + 4),
                               data[start..end], start), end)))
  }

  /** At most n records from `offset` on; a record that does not fit ends the list. */
  function ReadRecords(data: Octets, offset: nat, n: nat): (r: Outcome<seq<Record>>)
    decreases n
  {
    if n == 0 then Returns([])
    else match ReadRecord(data, offset)
      case Diverges => Diverges
      case Returns(None) => Returns([])
      case Returns(Some((record, end))) => Prepended([record], ReadRecords(data, end, n - 1))
  }

  /** A list of records that has `front` before it goes on as `rest`. */
  function Prepended(front: seq<Record>, rest: Outcome<seq<Record>>): (r: Outcome<seq<Record>>) {
    match rest
    case Diverges => Diverges
    case Returns(back) => Returns(front + back)
  }

  lemma PrependedTwice(first: seq<Record>, second: seq<Record>, rest: Outcome<seq<Record>>)
    ensures Prepended(first, Prepended(second, rest)) == Prepended(first + second, rest)
    ensures Prepended(first, Returns([])) == Returns(first) && Prepended([], rest) == rest
  {
    if rest.Returns? {
      assert first + (second + rest.value) == (first + second) + rest.value;
      assert [] + rest.value == rest.value;
    }
    assert first + [] == first;
  }

  function RecordCount(data: Octets): (n: nat)
    requires |data| >= HEADER
  {
    Big16At(data, 6) + Big16At(data, 8) + Big16At(data, 10)
  }

  function ParsePacket(data: Octets): (r: Outcome<Option<Packet>>) {
    if |data| < HEADER then Returns(None)
    else match SkipQuestions(data, HEADER, Big16At(data, 4))
      case Diverges => Diverges
      case Returns(None) => Returns(None)
      case Returns(Some(offset)) =>
        match ReadRecords(data, offset, RecordCount(data))
        case Diverges => Diverges
        case Returns(records) => Returns(Some(Packet(Big16At(data, 0), Big16At(data, 2), records)))
  }

  /** Records that are read one behind the other are read as a list, up to one that does not fit. */
  lemma {:induction false} ReadRecordsChain(data: Octets, starts: seq<nat>, records: seq<Record>, more: nat)
    requires |starts| == |records| + 1
    requires forall i | 0 <= i < |records| :: ReadRecord(data, starts[i]) == Returns(Some((records[i], starts[i + 1])))
    requires more > 0 ==> ReadRecord(data, starts[|records|]) == Returns(None)
    ensures ReadRecords(data, starts[0], |records| + more) == Returns(records)
    decreases |records|
  {
    hide ReadRecord, ReadRecords;
    if records != [] {
      var first, rest := records[0], records[1..];
      ReadRecordsChain(data, starts[1..], rest, more);
      FirstRecord(data, starts[0], first, starts[1], |rest| + more);
      assert records == [first] + rest;
    } else {
      NoMoreRecords(data, starts[0], more);
    }
  }

  lemma FirstRecord(data: Octets, offset: nat, first: Record, next: nat, n: nat)
    requires ReadRecord(data, offset) == Returns(Some((first, next))) && ReadRecords(data, next, n).Returns?
    ensures ReadRecords(data, offset, n + 1) == Returns([first] + ReadRecords(data, next, n).value)
  {
    hide ReadRecord;
  }

  lemma NoMoreRecords(data: Octets, offset: nat, more: nat)
    requires more > 0 ==> ReadRecord(data, offset) == Returns(None)
    ensures ReadRecords(data, offset, more) == Returns([])
  {
    hide ReadRecord;
  }

  /** parseDNSPacket, for the messages on which it returns at all. */
  method ParseDNSPacket(data: Octets) returns (pkt: Packet, ok: bool)
    requires ParsePacket(data).Returns?
    ensures ParsePacket(data).value == if ok then Some(pkt) else None
  {
    hide ReadRecords;
    if |data| < HEADER {
      return Packet(0, 0, []), false;
    }
    var id, flags := Big16At(data, 0), Big16At(data, 2);
    var qd, an, ns, ar := Big16At(data, 4), Big16At(data, 6), Big16At(data, 8), Big16At(data, 10);
    var offset: nat := HEADER;
    var i: nat := 0;
    while i < qd
      invariant i <= qd
      invariant SkipQuestions(data, HEADER, qd) == SkipQuestions(data, offset, qd - i)
    {
      var _, next := DecodeDNSName(data, offset, |data|);
      if next + 4 > |data| {
        return Packet(0, 0, []), false;
      }
      offset := next + 4;
      i := i + 1;
    }
    var records := CollectRecords(data, offset, an + ns + ar);
    return Packet(id, flags, records), true;
  }

  /** The record loop of parseDNSPacket. */
  method CollectRecords(data: Octets, first: nat, total: nat) returns (records: seq<Record>)
    requires ReadRecords(data, first, total).Returns?
    ensures ReadRecords(data, first, total) == Returns(records)
  {
    records := [];
    var offset: nat := first;
    var i: nat := 0;
    PrependedTwice([], [], ReadRecords(data, first, total));
    while i < total
      invariant i <= total
      invariant ReadRecords(data, first, total) == Prepended(records, ReadRecords(data, offset, total - i))
    {
      PrependedTwice(records, [], Returns([]));
      var found := TakeRecord(data, offset);
      if found.None? {
        break;
      }
      var (record, end) := found.value;
      PrependedTwice(records, [record], ReadRecords(data, end, total - i - 1));
      records := records + [record];
      offset := end;
      i := i + 1;
    }
    PrependedTwice(records, [], Returns([]));
  }

  /** One round of that loop; it ends the loop by finding nothing. */
  method TakeRecord(data: Octets, offset: nat) returns (found: Option<(Record, nat)>)
    requires ReadRecord(data, offset).Returns?
    ensures ReadRecord(data, offset) == Returns(found)
  {
    var name, next := DecodeDNSName(data, offset, |data|);
    if next + 10 > |data| {
      return None;
    }
    var rtype := Big16At(data, next);
    var class_ := Big16At(data, next + 2);
    var ttl := Big32At(data, next + 4);
    var rdlen := Big16At(data, next + 8);
    next := next + 10;
    if next + rdlen > |data| {
      return None;
    }
    found := Some((Record(name, rtype, class_, ttl, data[next..next + rdlen], next), next + rdlen));
  }

  // ---- what the records of any message look like ----

  /**
   * Each record's data is the slice of the message at its RDataOffset, and the records stand one
   * behind the other, with at least a one-byte name and ten fixed bytes in front of each one's data.
   */
  ghost predicate LaidOut(data: Octets, offset: nat, records: seq<Record>) {
    && (forall i | 0 <= i < |records| ::
          var r := records[i];
          offset + 11 <= r.rdataOffset && StandsAt(data, r.rdataOffset, r.data))
    && (forall i, j | 0 <= i < j < |records| ::
          records[i].rdataOffset + |records[i].data| + 11 <= records[j].rdataOffset)
  }

  lemma LaidOutCons(data: Octets, offset: nat, first: Record, rest: seq<Record>)
    requires offset + 11 <= first.rdataOffset && StandsAt(data, first.rdataOffset, first.data)
    requires LaidOut(data, first.rdataOffset + |first.data|, rest)
    ensures LaidOut(data, offset, [first] + rest)
  {
    var all := [first] + rest;
    forall i | 0 <= i < |all|
      ensures offset + 11 <= all[i].rdataOffset && StandsAt(data, all[i].rdataOffset, all[i].data)
    {
      assert i > 0 ==> all[i] == rest[i - 1];
    }
  }

  lemma {:induction false} ReadRecordsLaidOut(data: Octets, offset: nat, n: nat)
    requires ReadRecords(data, offset, n).Returns?
    ensures var records := ReadRecords(data, offset, n).value;
            LaidOut(data, offset, records) && |records| <= n && (records != [] ==> offset + 11 * |records| <= |data|)
    decreases n
  {
    if n > 0 && ReadRecord(data, offset).value.Some? {
      var (record, end) := ReadRecord(data, offset).value.value;
      ReadRecordsLaidOut(data, end, n - 1);
      LaidOutCons(data, offset, record, ReadRecords(data, end, n - 1).value);
    }
  }

  lemma {:induction false} SkipQuestionsAdvances(data: Octets, offset: nat, n: nat)
    requires SkipQuestions(data, offset, n).Returns? && SkipQuestions(data, offset, n).value.Some?
    ensures offset + 4 * n <= SkipQuestions(data, offset, n).value.value
    decreases n
  {
    if n > 0 {
      SkipQuestionsAdvances(data, SkipQuestion(data, offset).value.value, n - 1);
    }
  }

  /** The records of every packet that parses: in bounds, in order, apart, and never too many. */
  lemma ParsedRecordsLaidOut(data: Octets)
    requires ParsePacket(data).Returns? && ParsePacket(data).value.Some?
    ensures var records := ParsePacket(data).value.value.records;
            && LaidOut(data, HEADER, records)
            && |records| <= RecordCount(data)
            && |records| <= (|data| - HEADER) / 11
  {
    var offset := SkipQuestions(data, HEADER, Big16At(data, 4)).value.value;
    SkipQuestionsAdvances(data, HEADER, Big16At(data, 4));
    ReadRecordsLaidOut(data, offset, RecordCount(data));
    var records := ParsePacket(data).value.value.records;
    if records != [] {
      assert 11 * |records| <= |data| - HEADER;
    }
  }

  // ---- when the walk returns ----

  /** Where the names of at most n questions start; pointers need not be followed to find the next. */
  function QuestionNames(data: Octets, offset: nat, n: nat): (offsets: seq<nat>)
    decreases n
  {
    if n == 0 then []
    else
      var end := Walk(data, offset).next + 4;
      [offset] + if end > |data| then [] else QuestionNames(data, end, n - 1)
  }

  /** The offset behind n questions, if the message is long enough for them. */
  function QuestionsEnd(data: Octets, offset: nat, n: nat): (end: Option<nat>)
    decreases n
  {
    if n == 0 then Some(offset)
    else
      var end := Walk(data, offset).next + 4;
      if end > |data| then None else QuestionsEnd(data, end, n - 1)
  }

  /** Where the names of at most n records start. */
  function RecordNames(data: Octets, offset: nat, n: nat): (offsets: seq<nat>)
    decreases n
  {
    if n == 0 then []
    else
      var start := Walk(data, offset).next + 10;
      var fits := start <= |data| && start + Big16At(data, start - 2) <= |data|;
      [offset] + if fits then RecordNames(data, start + Big16At(data, start - 2), n - 1) else []
  }

  /** Where the names stand that the walk decodes. */
  function PacketNames(data: Octets): (offsets: seq<nat>) {
    if |data| < HEADER then []
    else
      var end := QuestionsEnd(data, HEADER, Big16At(data, 4));
      QuestionNames(data, HEADER, Big16At(data, 4))
      + if end.None? then [] else RecordNames(data, end.value, RecordCount(data))
  }

  ghost predicate AllAcyclic(data: Octets, offsets: seq<nat>) {
    forall o | o in offsets :: Acyclic(data, o)
  }

  lemma AllAcyclicConcat(data: Octets, first: seq<nat>, second: seq<nat>)
    ensures AllAcyclic(data, first + second) <==> AllAcyclic(data, first) && AllAcyclic(data, second)
  {
    hide Acyclic;
    assert forall o | o in first || o in second :: o in first + second;
  }

  lemma OneAcyclic(data: Octets, offset: nat)
    ensures AllAcyclic(data, [offset]) <==> Acyclic(data, offset)
    ensures AllAcyclic(data, [])
  {
    hide Acyclic;
    assert offset in [offset];
  }

  /** A name is decoded exactly when its pointers do not run in a circle; the offset after it is known anyway. */
  lemma NameReturns(data: Octets, offset: nat)
    ensures Decode(data, offset).Returns? <==> Acyclic(data, offset)
    ensures Decode(data, offset).Returns? ==> Decode(data, offset).value.1 == Walk(data, offset).next
  {
    TerminatesIffAcyclic(data, offset);
    hide Acyclic, Terminates;
  }

  lemma {:induction false} QuestionsReturn(data: Octets, offset: nat, n: nat)
    ensures SkipQuestions(data, offset, n).Returns? <==> AllAcyclic(data, QuestionNames(data, offset, n))
    ensures SkipQuestions(data, offset, n).Returns? ==>
              SkipQuestions(data, offset, n).value == QuestionsEnd(data, offset, n)
    decreases n
  {
    NameReturns(data, offset);
    OneAcyclic(data, offset);
    hide Decode, Acyclic, Walk, AllAcyclic;
    if n > 0 {
      var end := Walk(data, offset).next + 4;
      if end <= |data| {
        QuestionsReturn(data, end, n - 1);
        AllAcyclicConcat(data, [offset], QuestionNames(data, end, n - 1));
      } else {
        assert [offset] + [] == [offset];
      }
    }
  }

  lemma {:induction false} RecordsReturn(data: Octets, offset: nat, n: nat)
    ensures ReadRecords(data, offset, n).Returns? <==> AllAcyclic(data, RecordNames(data, offset, n))
    decreases n
  {
    NameReturns(data, offset);
    OneAcyclic(data, offset);
    hide Decode, Acyclic, Walk, AllAcyclic, Big16At;
    if n > 0 {
      var start := Walk(data, offset).next + 10;
      if start <= |data| && start + Big16At(data, start - 2) <= |data| {
        var end := start + Big16At(data, start - 2);
        RecordsReturn(data, end, n - 1);
        AllAcyclicConcat(data, [offset], RecordNames(data, end, n - 1));
      } else {
        assert [offset] + [] == [offset];
      }
    }
  }

  /**
   * The walk returns exactly on the messages in which no name that it decodes runs in a circle, and
   * gives no packet exactly when the header or a question does not fit.
   */
  lemma WalkReturnsIffAcyclic(data: Octets)
    ensures ParsePacket(data).Returns? <==> forall o | o in PacketNames(data) :: Acyclic(data, o)
    ensures ParsePacket(data).Returns? ==>
              (ParsePacket(data).value.None? <==> |data| < 12 || QuestionsEnd(data, HEADER, Big16At(data, 4)).None?)
  {
    assert AllAcyclic(data, PacketNames(data)) <==> forall o | o in PacketNames(data) :: Acyclic(data, o);
    OneAcyclic(data, 0);
    hide SkipQuestions, ReadRecords, Acyclic, AllAcyclic, QuestionNames, QuestionsEnd, RecordNames;
    if |data| >= HEADER {
      var qd := Big16At(data, 4);
      var names, end := QuestionNames(data, HEADER, qd), QuestionsEnd(data, HEADER, qd);
      QuestionsReturn(data, HEADER, qd);
      if end.Some? {
        RecordsReturn(data, end.value, RecordCount(data));
        AllAcyclicConcat(data, names, RecordNames(data, end.value, RecordCount(data)));
      } else {
        assert names + [] == names;
      }
    }
  }

  /** So it does on every message in which no pointer leads into a circle. */
  lemma WalkReturnsWhenAcyclic(data: Octets)
    requires forall o: nat | o < |data| :: Acyclic(data, o)
    ensures ParsePacket(data).Returns?
  {
    WalkReturnsIffAcyclic(data);
    forall o | o in PacketNames(data) ensures Acyclic(data, o) {
      if o >= |data| {
        TerminatesIffAcyclic(data, o);
        assert Halts(data, o, 0);
      }
    }
    hide ParsePacket, PacketNames;
  }

  /** And when all pointers aim backward, as a sender that follows the standard makes them. */
  lemma WalkReturnsWhenBackward(data: Octets)
    requires forall o: nat | o < |data| :: PointsBackward(data, o)
    ensures ParsePacket(data).Returns?
  {
    forall o: nat | o < |data| ensures Acyclic(data, o) {
      BackwardPointersHalt(data, o);
      TerminatesIffAcyclic(data, o);
    }
    WalkReturnsWhenAcyclic(data);
  }

  // ---- printing, and the round trip ----

  /** A name as written: some labels, then the root or a pointer. */
  datatype NameForm = NameForm(labels: seq<Part>, pointer: Option<nat>) {
    predicate Valid() {
      AllNonEmpty(labels) && (pointer.Some? ==> pointer.value < POINTERS)
    }

    function Bytes(): (b: Octets)
      requires Valid()
    {
      EncodeLabels(labels) + if pointer.Some? then PointerTo(pointer.value) else [0]
    }

    /** The pointer, if there is one, leads to a name that ends. */
    predicate Resolves(data: Octets) {
      pointer.Some? ==> Halts(data, pointer.value, |data|)
    }

    /** The dotted name this stands for inside `data`. */
    function Meaning(data: Octets): (name: Octets)
      requires Resolves(data)
    {
      Join(if pointer.Some? then labels + Labels(data, pointer.value, |data|) else labels, DOT)
    }
  }

  type Word = n: nat | n < 0x1_0000
  type Long = n: nat | n < 0x1_0000_0000

  datatype Question = Question(name: NameForm, qtype: Word, qclass: Word)

  datatype Entry = Entry(name: NameForm, rtype: Word, class_: Word, ttl: Long, data: Octets)

  predicate ValidQuestions(qs: seq<Question>) {
    forall q | q in qs :: q.name.Valid()
  }

  predicate ValidEntries(es: seq<Entry>) {
    forall e | e in es :: e.name.Valid() && |e.data| < 0x1_0000
  }

  function PrintQuestion(q: Question): (b: Octets)
    requires q.name.Valid()
  {
    q.name.Bytes() + (Big16(q.qtype) + Big16(q.qclass))
  }

  function PrintQuestions(qs: seq<Question>): (b: Octets)
    requires ValidQuestions(qs)
  {
    if qs == [] then []
    else
      assert qs[0] in qs && forall q | q in qs[1..] :: q in qs;
      PrintQuestion(qs[0]) + PrintQuestions(qs[1..])
  }

  /** The ten bytes between a record's name and its data. */
  function Fixed(e: Entry): (b: Octets)
    requires |e.data| < 0x1_0000
  {
    Big16(e.rtype) + Big16(e.class_) + Big32(e.ttl) + Big16(|e.data|)
  }

  function PrintEntry(e: Entry): (b: Octets)
    requires e.name.Valid() && |e.data| < 0x1_0000
  {
    e.name.Bytes() + (Fixed(e) + e.data)
  }

  function PrintEntries(es: seq<Entry>): (b: Octets)
    requires ValidEntries(es)
  {
    if es == [] then []
    else
      assert es[0] in es && forall e | e in es[1..] :: e in es;
      PrintEntry(es[0]) + PrintEntries(es[1..])
  }

  /** The record that stands for `e` printed at `offset` of `data`. */
  function MeantOne(data: Octets, offset: nat, e: Entry): (record: Record)
    requires e.name.Valid() && e.name.Resolves(data)
  {
    Record(e.name.Meaning(data), e.rtype, e.class_, e.ttl, e.data, offset + |e.name.Bytes()| + 10)
  }

  /** Where the i-th of the entries printed at `offset` starts. */
  function Start(offset: nat, es: seq<Entry>, i: nat): (o: nat)
    requires ValidEntries(es) && i <= |es|
  {
    assert forall e | e in es[..i] :: e in es;
    offset + |PrintEntries(es[..i])|
  }

  function Meant(data: Octets, offset: nat, es: seq<Entry>): (records: seq<Record>)
    requires ValidEntries(es) && forall e | e in es :: e.name.Resolves(data)
    ensures |records| == |es|
  {
    seq(|es|, i requires 0 <= i < |es| => assert es[i] in es; MeantOne(data, Start(offset, es, i), es[i]))
  }

  lemma {:induction false} PrintEntriesConcat(first: seq<Entry>, second: seq<Entry>)
    requires ValidEntries(first + second)
    ensures ValidEntries(first) && ValidEntries(second)
    ensures PrintEntries(first + second) == PrintEntries(first) + PrintEntries(second)
  {
    hide PrintEntry;
    assert forall e | e in first || e in second :: e in first + second;
    if first == [] {
      assert first + second == second;
    } else {
      assert (first + second)[1..] == first[1..] + second;
      PrintEntriesConcat(first[1..], second);
    }
  }

  lemma PrintEntriesSnoc(front: seq<Entry>, last: Entry)
    requires ValidEntries(front) && last.name.Valid() && |last.data| < 0x1_0000
    ensures ValidEntries(front + [last])
    ensures PrintEntries(front + [last]) == PrintEntries(front) + PrintEntry(last)
  {
    hide PrintEntry;
    assert ValidEntries(front + [last]);
    PrintEntriesConcat(front, [last]);
    assert PrintEntries([last]) == PrintEntry(last) + PrintEntries([]);
  }

  lemma EntryStands(data: Octets, offset: nat, es: seq<Entry>, i: nat)
    requires ValidEntries(es) && i < |es| && StandsAt(data, offset, PrintEntries(es))
    ensures es[i] in es && StandsAt(data, Start(offset, es, i), PrintEntry(es[i]))
    ensures Start(offset, es, i + 1) == Start(offset, es, i) + |PrintEntry(es[i])|
  {
    hide PrintEntry, PrintEntries;
    assert es[..i] + [es[i]] == es[..i + 1] && es[..i + 1] + es[i + 1..] == es;
    assert ValidEntries(es[..i]) && es[i] in es;
    PrintEntriesSnoc(es[..i], es[i]);
    PrintEntriesConcat(es[..i + 1], es[i + 1..]);
    StandsAtConcat(data, offset, PrintEntries(es[..i + 1]), PrintEntries(es[i + 1..]));
    StandsAtConcat(data, offset, PrintEntries(es[..i]), PrintEntry(es[i]));
  }

  /** Numbers of records in the answer, authority and additional sections. */
  datatype Counts = Counts(an: Word, ns: Word, ar: Word)

  function PrintHeader(id: Word, flags: Word, qd: Word, counts: Counts): (b: Octets)
    ensures |b| == HEADER
  {
    Big16(id) + Big16(flags) + Big16(qd) + Big16(counts.an) + Big16(counts.ns) + Big16(counts.ar)
  }

  lemma Big16Reads(b: Octets, i: nat, n: Word)
    requires StandsAt(b, i, Big16(n))
    ensures Big16At(b, i) == n
  {
    assert b[i] == b[i..i + 2][0] && b[i + 1] == b[i..i + 2][1];
  }

  lemma Big32Reads(b: Octets, i: nat, n: Long)
    requires StandsAt(b, i, Big32(n))
    ensures Big32At(b, i) == n
  {
    StandsAtConcat(b, i, Big16(n / 0x1_0000), Big16(n % 0x1_0000));
    Big16Reads(b, i, n / 0x1_0000);
    Big16Reads(b, i + 2, n % 0x1_0000);
  }

  lemma FixedReads(b: Octets, i: nat, e: Entry)
    requires |e.data| < 0x1_0000 && StandsAt(b, i, Fixed(e))
    ensures Big16At(b, i) == e.rtype && Big16At(b, i + 2) == e.class_
    ensures Big32At(b, i + 4) == e.ttl && Big16At(b, i + 8) == |e.data|
  {
    var t, c, l := Big16(e.rtype), Big16(e.class_), Big32(e.ttl);
    StandsAtConcat(b, i, t + c + l, Big16(|e.data|));
    StandsAtConcat(b, i, t + c, l);
    StandsAtConcat(b, i, t, c);
    Big16Reads(b, i, e.rtype);
    Big16Reads(b, i + 2, e.class_);
    Big32Reads(b, i + 4, e.ttl);
    Big16Reads(b, i + 8, |e.data|);
  }

  /** A written name decodes to its meaning and to the offset just behind it. */
  lemma WrittenNameDecodes(data: Octets, offset: nat, form: NameForm)
    requires form.Valid() && form.Resolves(data) && StandsAt(data, offset, form.Bytes())
    ensures Decode(data, offset) == Returns((form.Meaning(data), offset + |form.Bytes()|))
  {
    if form.pointer.Some? {
      PointerNameDecodes(data, offset, form.labels, form.pointer.value, |data|);
      DecodeDivergesIffCyclic(data, offset);
      assert Terminates(data, offset);
      TerminatesIffAcyclic(data, offset);
    } else {
      PlainNameDecodes(data, offset, form.labels, |data|);
    }
  }

  lemma QuestionSkipped(data: Octets, offset: nat, q: Question)
    requires q.name.Valid() && q.name.Resolves(data) && StandsAt(data, offset, PrintQuestion(q))
    ensures SkipQuestion(data, offset) == Returns(Some(offset + |PrintQuestion(q)|))
  {
    StandsAtConcat(data, offset, q.name.Bytes(), Big16(q.qtype) + Big16(q.qclass));
    WrittenNameDecodes(data, offset, q.name);
  }

  lemma PrintFirst(qs: seq<Question>)
    requires qs != [] && ValidQuestions(qs)
    ensures ValidQuestions(qs[1..]) && PrintQuestions(qs) == PrintQuestion(qs[0]) + PrintQuestions(qs[1..])
  {
    assert forall q | q in qs[1..] :: q in qs;
    hide PrintQuestion;
  }

  lemma SkipNone(data: Octets, offset: nat)
    ensures SkipQuestions(data, offset, 0) == Returns(Some(offset)) && PrintQuestions([]) == []
  {
  }

  lemma SkipFirst(data: Octets, offset: nat, n: nat)
    requires n > 0 && SkipQuestion(data, offset).Returns? && SkipQuestion(data, offset).value.Some?
    ensures SkipQuestions(data, offset, n) == SkipQuestions(data, SkipQuestion(data, offset).value.value, n - 1)
  {
  }

  lemma {:induction false} QuestionsSkipped(data: Octets, offset: nat, qs: seq<Question>)
    requires ValidQuestions(qs) && StandsAt(data, offset, PrintQuestions(qs))
    requires forall q | q in qs :: q.name.Resolves(data)
    ensures SkipQuestions(data, offset, |qs|) == Returns(Some(offset + |PrintQuestions(qs)|))
    decreases |qs|
  {
    hide StandsAt, SkipQuestion, PrintQuestion, SkipQuestions, NameForm.Resolves, NameForm.Valid;
    SkipNone(data, offset);
    if qs != [] {
      var q, rest := qs[0], qs[1..];
      assert q in qs && forall q | q in rest :: q in qs;
      PrintFirst(qs);
      hide PrintQuestions;
      StandsAtConcat(data, offset, PrintQuestion(q), PrintQuestions(rest));
      QuestionSkipped(data, offset, q);
      SkipFirst(data, offset, |qs|);
      QuestionsSkipped(data, offset + |PrintQuestion(q)|, rest);
    }
  }

  lemma EntryRead(data: Octets, offset: nat, e: Entry)
    requires e.name.Valid() && |e.data| < 0x1_0000 && e.name.Resolves(data)
    requires StandsAt(data, offset, PrintEntry(e))
    ensures ReadRecord(data, offset) == Returns(Some((MeantOne(data, offset, e), offset + |PrintEntry(e)|)))
  {
    hide StandsAt, NameForm.Bytes, NameForm.Meaning, NameForm.Resolves, Decode;
    var next := offset + |e.name.Bytes()|;
    StandsAtConcat(data, offset, e.name.Bytes(), Fixed(e) + e.data);
    StandsAtConcat(data, next, Fixed(e), e.data);
    WrittenNameDecodes(data, offset, e.name);
    PartIsSlice(data, next, Fixed(e));
    PartIsSlice(data, next + 10, e.data);
    FixedReads(data, next, e);
  }

  lemma PartIsSlice(data: Octets, offset: nat, part: Octets)
    requires StandsAt(data, offset, part)
    ensures offset + |part| <= |data| && data[offset..offset + |part|] == part
  {
  }

  lemma EntriesRead(data: Octets, offset: nat, es: seq<Entry>, more: nat)
    requires ValidEntries(es) && StandsAt(data, offset, PrintEntries(es))
    requires forall e | e in es :: e.name.Resolves(data)
    requires more > 0 ==> ReadRecord(data, offset + |PrintEntries(es)|) == Returns(None)
    ensures ReadRecords(data, offset, |es| + more) == Returns(Meant(data, offset, es))
  {
    hide ReadRecord, PrintEntry;
    var starts: seq<nat> := seq(|es| + 1, i requires 0 <= i <= |es| => Start(offset, es, i));
    var records := Meant(data, offset, es);
    forall i | 0 <= i < |es|
      ensures ReadRecord(data, starts[i]) == Returns(Some((records[i], starts[i + 1])))
    {
      EntryStands(data, offset, es, i);
      EntryRead(data, starts[i], es[i]);
    }
    assert es[..|es|] == es && es[..0] == [] && PrintEntries([]) == [];
    hide PrintEntries, Meant;
    ReadRecordsChain(data, starts, records, more);
  }

  lemma HeaderReads(data: Octets, id: Word, flags: Word, qd: Word, counts: Counts)
    requires StandsAt(data, 0, PrintHeader(id, flags, qd, counts))
    ensures Big16At(data, 0) == id && Big16At(data, 2) == flags && Big16At(data, 4) == qd
    ensures RecordCount(data) == counts.an + counts.ns + counts.ar
  {
    var h := PrintHeader(id, flags, qd, counts);
    forall i | 0 <= i < HEADER ensures data[i] == h[i] {
      assert data[i] == data[0..0 + HEADER][i];
    }
  }

  /** A packet as written: header, questions and records. */
  datatype Form = Form(id: Word, flags: Word, questions: seq<Question>, counts: Counts, entries: seq<Entry>) {
    predicate Valid() {
      && |questions| < 0x1_0000 && |entries| <= counts.an + counts.ns + counts.ar
      && ValidQuestions(questions) && ValidEntries(entries)
    }

    function Header(): (b: Octets)
      requires Valid()
    {
      PrintHeader(id, flags, |questions|, counts)
    }

    function Bytes(): (b: Octets)
      requires Valid()
    {
      Header() + PrintQuestions(questions) + PrintEntries(entries)
    }

    /** How many records the header promises beyond those there are. */
    function Missing(): (n: nat)
      requires Valid()
    {
      counts.an + counts.ns + counts.ar - |entries|
    }

    /** Every pointer used in a name leads, inside `data`, to a name that ends. */
    predicate Resolves(data: Octets) {
      && (forall q | q in questions :: q.name.Resolves(data))
      && (forall e | e in entries :: e.name.Resolves(data))
    }
  }

  lemma FormStands(form: Form, after: Octets)
    requires form.Valid()
    ensures var data := form.Bytes() + after;
            && StandsAt(data, 0, form.Header())
            && StandsAt(data, HEADER, PrintQuestions(form.questions))
            && StandsAt(data, HEADER + |PrintQuestions(form.questions)|, PrintEntries(form.entries))
  {
    var h, q, e := form.Header(), PrintQuestions(form.questions), PrintEntries(form.entries);
    var data := (h + q + e) + after;
    assert StandsAt(data, 0, data);
    StandsAtConcat(data, 0, h + q + e, after);
    StandsAtConcat(data, 0, h + q, e);
    StandsAtConcat(data, 0, h, q);
  }

  /** Fewer than ten bytes behind the last record hold no other one, if the decoder gets through them. */
  lemma NothingFits(data: Octets, offset: nat)
    requires offset <= |data| < offset + 10 && Acyclic(data, offset)
    ensures ReadRecord(data, offset) == Returns(None)
  {
    NameReturns(data, offset);
    hide Acyclic, Decode;
  }

  /**
   * A packet printed from a header, questions and records, compressed or not and followed by
   * anything, parses back to that header and to the records meant. If the header promises more records,
   * those there are count, as long as what follows is too short for another.
   */
  lemma PrintedPacketParses(form: Form, after: Octets)
    requires form.Valid() && form.Resolves(form.Bytes() + after)
    requires form.Missing() > 0 ==> |after| < 10 && Acyclic(form.Bytes() + after, |form.Bytes()|)
    ensures var records := Meant(form.Bytes() + after, HEADER + |PrintQuestions(form.questions)|, form.entries);
            ParsePacket(form.Bytes() + after) == Returns(Some(Packet(form.id, form.flags, records)))
  {
    hide SkipQuestions, ReadRecords, ReadRecord, PrintQuestions, PrintEntries, Meant, Acyclic;
    var data := form.Bytes() + after;
    FormStands(form, after);
    HeaderReads(data, form.id, form.flags, |form.questions|, form.counts);
    QuestionsSkipped(data, HEADER, form.questions);
    if form.Missing() > 0 {
      NothingFits(data, |form.Bytes()|);
    }
    EntriesRead(data, HEADER + |PrintQuestions(form.questions)|, form.entries, form.Missing());
  }

  // ---- queries ----

  function Query(id: Word, name: Octets, qtype: Word, unicastResponse: bool, trim: Octets -> Octets): (b: Octets) {
    PrintHeader(id, if unicastResponse then 0x8000 else 0, 1, Counts(0, 0, 0))
    + EncodeName(name, trim) + (Big16(qtype) + [0, 1])
  }

  /** A query for a dotted name is a packet with that one question, of the type asked for and class 1. */
  lemma QueryAsks(id: Word, labels: seq<Octets>, cut: seq<Part>, dotted: bool, qtype: Word, unicastResponse: bool,
                  trim: Octets -> Octets)
    requires forall l | l in labels :: l != [] && DOT !in l
    requires |cut| == |labels|
    requires forall i | 0 <= i < |labels| :: cut[i] == if |labels[i]| <= 63 then labels[i] else labels[i][..63]
    requires var text := Join(labels, DOT) + if dotted then [DOT] else []; trim(text) == text
    ensures var question := Question(NameForm(cut, None), qtype, 1);
            var form := Form(id, if unicastResponse then 0x8000 else 0, [question], Counts(0, 0, 0), []);
            && form.Valid()
            && Query(id, Join(labels, DOT) + if dotted then [DOT] else [], qtype, unicastResponse, trim) == form.Bytes()
  {
    DottedNameWritten(labels, cut, dotted, trim);
    hide EncodeName, Join, EncodeLabels, PrintHeader, PrintQuestions, PrintEntries, ValidQuestions, ValidEntries, Big16;
    forall l | l in cut ensures l != [] {
      var i :| 0 <= i < |cut| && cut[i] == l;
      assert labels[i] in labels;
    }
    OneQuestion(Question(NameForm(cut, None), qtype, 1));
    Regroup(PrintHeader(id, if unicastResponse then 0x8000 else 0, 1, Counts(0, 0, 0)), EncodeLabels(cut) + [0],
            Big16(qtype) + [0, 1]);
  }

  lemma Regroup(a: Octets, b: Octets, c: Octets)
    ensures a + b + c == a + (b + c) + []
  {
  }

  lemma OneQuestion(q: Question)
    requires q.name.Valid() && q.name.pointer.None? && q.qclass == 1
    ensures ValidQuestions([q]) && ValidEntries([]) && PrintEntries([]) == []
    ensures PrintQuestions([q]) == EncodeLabels(q.name.labels) + [0] + (Big16(q.qtype) + [0, 1])
  {
    assert q in [q] && [q][1..] == [];
    PrintFirst([q]);
    assert Big16(1) == [0, 1];
    hide EncodeLabels, Big16;
    assert PrintQuestions([]) == [];
    assert PrintQuestions([q]) == PrintQuestion(q) + [];
  }

  /** Whatever the name, a query ends in the type and class 1. */
  lemma QueryEnds(id: Word, name: Octets, qtype: Word, unicastResponse: bool, trim: Octets -> Octets)
    ensures var b := Query(id, name, qtype, unicastResponse, trim);
            |b| >= 4 && b[|b| - 4..] == [qtype / 256, qtype % 256, 0, 1]
  {
  }

  /** binary.BigEndian.PutUint16 into a buffer. */
  function Put16(b: Octets, i: nat, n: Word): (r: Octets)
    requires i + 2 <= |b|
    ensures |r| == |b|
    ensures forall k | 0 <= k < |b| :: r[k] == if k == i then n / 256 else if k == i + 1 then n % 256 else b[k]
  {
    b[i := n / 256][i + 1 := n % 256]
  }

  /** buildDNSQuery. */
  method BuildDNSQuery(id: Word, name: Octets, qtype: Word, unicastResponse: bool, trim: Octets -> Octets)
    returns (out: Octets)
    ensures out == Query(id, name, qtype, unicastResponse, trim)
  {
    var flags: Word := 0;
    if unicastResponse {
      flags := 0x8000;
    }
    out := seq(HEADER, _ => 0);
    out := Put16(out, 0, id);
    out := Put16(out, 2, flags);
    out := Put16(out, 4, 1);
    assert out == PrintHeader(id, flags, 1, Counts(0, 0, 0));
    var encoded := EncodeDNSName(name, trim);
    ghost var front := out + encoded;
    out := out + encoded;
    out := out + [qtype / 256, qtype % 256];
    out := out + [0x00, 0x01];
    assert (front + Big16(qtype)) + [0, 1] == front + (Big16(qtype) + [0, 1]);
  }

  /** Every query parses, for every name and type: its header comes back and it holds no record. */
  lemma QueryParses(id: Word, name: Octets, qtype: Word, unicastResponse: bool, trim: Octets -> Octets)
    ensures ParsePacket(Query(id, name, qtype, unicastResponse, trim))
         == Returns(Some(Packet(id, if unicastResponse then 0x8000 else 0, [])))
  {
    var flags := if unicastResponse then 0x8000 else 0;
    var h := PrintHeader(id, flags, 1, Counts(0, 0, 0));
    var data := Query(id, name, qtype, unicastResponse, trim);
    var tail := Big16(qtype) + [0, 1];
    assert data == h + EncodeName(name, trim) + tail;
    assert StandsAt(data, 0, h);
    HeaderReads(data, id, flags, 1, Counts(0, 0, 0));
    EncodeDecodeRoundTrip(h, name, tail, trim, |data|);
    hide EncodeName, Query, PrintHeader, Canonical, Halts, DecodeWithin;
    var next := Decode(data, HEADER).value.1;
    assert SkipQuestions(data, next + 4, 0) == Returns(Some(next + 4));
    assert ReadRecords(data, next + 4, 0) == Returns([]);
  }
}
