/**
 * The SNMP messages of main.go: six nested layers of BER triples around a list of var-binds.
 * `sanitize` stands for sanitizeOneLine, which makes a value fit for one line of output.
 */
module Snmp {
  import opened Wrappers
  import opened Octets
  import opened Ber

  // ---- hex keys ----

  function HexDigit(n: nat): (c: Octet)
    requires n < 16
  {
    if n < 10 then 48 + n else 87 + n
  }

  /** hex.EncodeToString. */
  function Hex(b: Octets): (s: Octets) {
    if b == [] then [] else [HexDigit(b[0] / 16), HexDigit(b[0] % 16)] + Hex(b[1..])
  }

  lemma HexDigitsTell(a: Octet, b: Octet)
    requires HexDigit(a / 16) == HexDigit(b / 16) && HexDigit(a % 16) == HexDigit(b % 16)
    ensures a == b
  {
  }

  lemma {:induction false} HexInjective(a: Octets, b: Octets)
    requires Hex(a) == Hex(b)
    ensures a == b
  {
    if a != [] && b != [] {
      assert Hex(a)[0] == Hex(b)[0] && Hex(a)[1] == Hex(b)[1];
      HexDigitsTell(a[0], b[0]);
      assert Hex(a)[2..] == Hex(a[1..]) && Hex(b)[2..] == Hex(b[1..]);
      HexInjective(a[1..], b[1..]);
      assert a == [a[0]] + a[1..] && b == [b[0]] + b[1..];
    }
  }

  /** The value of a hexadecimal digit; letters are small. */
  function HexValue(c: Octet): (n: Option<nat>) {
    if 48 <= c <= 57 then Some(c - 48) else if 97 <= c <= 102 then Some(c - 87) else None
  }

  /** Two digits a byte, the high one first. */
  lemma {:induction false} HexReads(b: Octets, k: nat)
    requires k < |b|
    ensures |Hex(b)| == 2 * |b|
    ensures HexValue(Hex(b)[2 * k]) == Some(b[k] / 16) && HexValue(Hex(b)[2 * k + 1]) == Some(b[k] % 16)
  {
    var rest := Hex(b[1..]);
    assert Hex(b) == [HexDigit(b[0] / 16), HexDigit(b[0] % 16)] + rest;
    if k > 0 {
      HexReads(b[1..], k - 1);
      assert Hex(b)[2 * k] == rest[2 * (k - 1)] && Hex(b)[2 * k + 1] == rest[2 * (k - 1) + 1];
    } else if |b| > 1 {
      HexReads(b[1..], 0);
    } else {
      assert b[1..] == [];
    }
  }

  // ---- parsing ----

  /** The content of the first triple. */
  function Inside(b: Option<Octets>): (r: Option<Octets>) {
    if b.Some? && Read(b.value).Some? then Some(Read(b.value).value.content) else None
  }

  /** What follows the first triple. */
  function After(b: Option<Octets>): (r: Option<Octets>) {
    if b.Some? && Read(b.value).Some? then Some(Read(b.value).value.rest) else None
  }

  /** Into the message, past version and community, into the PDU, past its three integers, into the list. */
  function ListOf(resp: Octets): (list: Option<Octets>) {
    var fields := Inside(Some(resp));
    var pdu := Inside(After(After(fields)));
    Inside(After(After(After(pdu))))
  }

  function Collect(list: Octets, sanitize: Octets -> Octets, vars: map<Octets, Octets>): (r: map<Octets, Octets>)
    decreases |list|
  {
    match Read(list)
    case None => vars
    case Some(t) => Collect(t.rest, sanitize, CollectOne(t.content, sanitize, vars))
  }

  /** One var-bind: an OBJECT IDENTIFIER with an OCTET STRING sets a variable, anything else is skipped. */
  function CollectOne(vb: Octets, sanitize: Octets -> Octets, vars: map<Octets, Octets>): (r: map<Octets, Octets>) {
    match Read(vb)
    case None => vars
    case Some(oid) =>
      if oid.tag != 0x06 then vars
      else
        match Read(oid.rest)
        case None => vars
        case Some(val) => if val.tag == 0x04 then vars[Hex(oid.content) := sanitize(val.content)] else vars
  }

  function Varbinds(resp: Octets, sanitize: Octets -> Octets): (vars: map<Octets, Octets>) {
    match ListOf(resp)
    case None => map[]
    case Some(list) => Collect(list, sanitize, map[])
  }

  method ParseSNMPVarbinds(resp: Octets, sanitize: Octets -> Octets) returns (vars: map<Octets, Octets>)
    ensures vars == Varbinds(resp, sanitize)
  {
    hide Read, Collect;
    vars := map[];
    var _, msg, _, ok := ReadTLV(resp);
    if !ok { return; }
    var _, _, rest, ok1 := ReadTLV(msg);
    if !ok1 { return; }
    var _, _, rest2, ok2 := ReadTLV(rest);
    if !ok2 { return; }
    var _, pdu, _, ok3 := ReadTLV(rest2);
    if !ok3 { return; }
    var _, _, r, ok4 := ReadTLV(pdu);
    if !ok4 { return; }
    var _, _, r2, ok5 := ReadTLV(r);
    if !ok5 { return; }
    var _, _, r3, ok6 := ReadTLV(r2);
    if !ok6 { return; }
    var _, list, _, ok7 := ReadTLV(r3);
    if !ok7 { return; }
    assert ListOf(resp) == Some(list);
    vars := CollectVarbinds(list, sanitize);
  }

  /** The loop of parseSNMPVarbinds. */
  method CollectVarbinds(list: Octets, sanitize: Octets -> Octets) returns (vars: map<Octets, Octets>)
    ensures vars == Collect(list, sanitize, map[])
  {
    vars := map[];
    var todo := list;
    while |todo| > 0
      invariant Collect(list, sanitize, map[]) == Collect(todo, sanitize, vars)
      decreases |todo|
    {
      var _, vb, rest, ok := ReadTLV(todo);
      if !ok {
        return;
      }
      assert Collect(todo, sanitize, vars) == Collect(rest, sanitize, CollectOne(vb, sanitize, vars));
      todo := rest;
      var oidTag, oid, afterOID, okOID := ReadTLV(vb);
      if !okOID || oidTag != 0x06 {
        continue;
      }
      var valTag, val, _, okVal := ReadTLV(afterOID);
      if !okVal {
        continue;
      }
      if valTag == 0x04 {
        vars := vars[Hex(oid) := sanitize(val)];
      }
    }
  }

  // ---- printing ----

  /** Any triple; the parser does not look at the tags or contents of most fields. */
  datatype Field = Field(tag: Octet, content: Octets)

  datatype Binding = Binding(oid: Octets, tag: Octet, value: Octets)

  datatype Message = Message(version: Field, community: Field, pduTag: Octet,
                             requestID: Field, status: Field, index: Field, bindings: seq<Binding>)

  function PrintField(f: Field): (b: Octets) {
    TLV(f.tag, f.content)
  }

  function PrintBinding(v: Binding): (b: Octets) {
    TLV(0x30, TLV(0x06, v.oid) + TLV(v.tag, v.value))
  }

  function PrintBindings(vs: seq<Binding>): (b: Octets) {
    if vs == [] then [] else PrintBinding(vs[0]) + PrintBindings(vs[1..])
  }

  function PrintPDU(m: Message): (b: Octets) {
    PrintField(m.requestID) + (PrintField(m.status) + (PrintField(m.index) + TLV(0x30, PrintBindings(m.bindings))))
  }

  function Print(m: Message): (b: Octets) {
    TLV(0x30, PrintField(m.version) + (PrintField(m.community) + TLV(m.pduTag, PrintPDU(m))))
  }

  // ---- the round trip ----

  const LIMIT := 0x1_0000_0000

  lemma TLVReads(tag: Octet, content: Octets, rest: Octets)
    requires |content| < LIMIT
    ensures Read(TLV(tag, content) + rest) == Some(Triple(tag, content, rest))
    ensures Inside(Some(TLV(tag, content) + rest)) == Some(content)
    ensures After(Some(TLV(tag, content) + rest)) == Some(rest)
  {
    hide Read;
    ReadUndoesTLV(tag, content, rest);
  }

  lemma TLVReadsAlone(tag: Octet, content: Octets)
    requires |content| < LIMIT
    ensures Read(TLV(tag, content)) == Some(Triple(tag, content, []))
    ensures Inside(Some(TLV(tag, content))) == Some(content)
  {
    TLVReads(tag, content, []);
    hide Read, TLV;
    assert TLV(tag, content) + [] == TLV(tag, content);
  }

  lemma TLVLonger(tag: Octet, content: Octets)
    ensures |TLV(tag, content)| > |content|
  {
  }

  /** Past the six layers the parser finds the printed list. */
  lemma PrintedListFound(m: Message, trailing: Octets)
    requires |Print(m)| < LIMIT
    ensures ListOf(Print(m) + trailing) == Some(PrintBindings(m.bindings))
  {
    var list := PrintBindings(m.bindings);
    var pdu := PrintPDU(m);
    var fields := PrintField(m.version) + (PrintField(m.community) + TLV(m.pduTag, pdu));
    TLVLonger(0x30, fields);
    TLVLonger(m.version.tag, m.version.content);
    TLVLonger(m.community.tag, m.community.content);
    TLVLonger(m.pduTag, pdu);
    TLVLonger(m.requestID.tag, m.requestID.content);
    TLVLonger(m.status.tag, m.status.content);
    TLVLonger(m.index.tag, m.index.content);
    TLVLonger(0x30, list);
    hide TLV, Inside, After, PrintBindings;
    TLVReads(0x30, fields, trailing);
    TLVReads(m.version.tag, m.version.content, PrintField(m.community) + TLV(m.pduTag, pdu));
    TLVReads(m.community.tag, m.community.content, TLV(m.pduTag, pdu));
    TLVReadsAlone(m.pduTag, pdu);
    TLVReads(m.requestID.tag, m.requestID.content, PrintField(m.status) + (PrintField(m.index) + TLV(0x30, list)));
    TLVReads(m.status.tag, m.status.content, PrintField(m.index) + TLV(0x30, list));
    TLVReads(m.index.tag, m.index.content, TLV(0x30, list));
    TLVReadsAlone(0x30, list);
  }

  predicate IsString(v: Binding, oid: Octets) {
    v.oid == oid && v.tag == 0x04
  }

  /** The value of the last OCTET STRING bound to the identifier. */
  function LastString(vs: seq<Binding>, oid: Octets): (r: Option<Octets>)
    ensures r.None? ==> forall k | 0 <= k < |vs| :: !IsString(vs[k], oid)
    ensures r.Some? ==> exists k | 0 <= k < |vs| ::
                          && IsString(vs[k], oid) && vs[k].value == r.value
                          && forall j | k < j < |vs| :: !IsString(vs[j], oid)
  {
    if vs == [] then None
    else
      var last := vs[|vs| - 1];
      if IsString(last, oid) then Some(last.value) else LastString(vs[..|vs| - 1], oid)
  }

  /** The variables hold exactly the last OCTET STRING of each identifier, sanitized. */
  ghost predicate Holds(vars: map<Octets, Octets>, vs: seq<Binding>, sanitize: Octets -> Octets) {
    && (forall oid :: Hex(oid) in vars <==> LastString(vs, oid).Some?)
    && (forall oid | LastString(vs, oid).Some? :: vars[Hex(oid)] == sanitize(LastString(vs, oid).value))
    && (forall key | key in vars :: exists oid :: key == Hex(oid))
  }

  /** What one binding does to the variables. */
  function Bound(vars: map<Octets, Octets>, v: Binding, sanitize: Octets -> Octets): (r: map<Octets, Octets>) {
    if v.tag == 0x04 then vars[Hex(v.oid) := sanitize(v.value)] else vars
  }

  lemma PrintedBindingCollected(v: Binding, sanitize: Octets -> Octets, vars: map<Octets, Octets>)
    requires |PrintBinding(v)| < LIMIT
    ensures Inside(Some(PrintBinding(v))) == Some(TLV(0x06, v.oid) + TLV(v.tag, v.value))
    ensures CollectOne(TLV(0x06, v.oid) + TLV(v.tag, v.value), sanitize, vars) == Bound(vars, v, sanitize)
  {
    TLVLonger(0x30, TLV(0x06, v.oid) + TLV(v.tag, v.value));
    TLVLonger(0x06, v.oid);
    TLVLonger(v.tag, v.value);
    hide TLV, Read, Inside;
    TLVReadsAlone(0x30, TLV(0x06, v.oid) + TLV(v.tag, v.value));
    TLVReads(0x06, v.oid, TLV(v.tag, v.value));
    TLVReadsAlone(v.tag, v.value);
  }

  lemma HoldsStep(vars: map<Octets, Octets>, done: seq<Binding>, v: Binding, sanitize: Octets -> Octets)
    requires Holds(vars, done, sanitize)
    ensures Holds(Bound(vars, v, sanitize), done + [v], sanitize)
  {
    assert (done + [v])[..|done|] == done;
    forall oid
      ensures LastString(done + [v], oid) == if IsString(v, oid) then Some(v.value) else LastString(done, oid)
      ensures Hex(oid) == Hex(v.oid) ==> oid == v.oid
    {
      if Hex(oid) == Hex(v.oid) {
        HexInjective(oid, v.oid);
      }
    }
    hide LastString, Hex;
  }

  lemma FirstBindingCollected(v: Binding, rest: Octets, sanitize: Octets -> Octets, vars: map<Octets, Octets>)
    requires |PrintBinding(v)| < LIMIT
    ensures Collect(PrintBinding(v) + rest, sanitize, vars) == Collect(rest, sanitize, Bound(vars, v, sanitize))
  {
    var content := TLV(0x06, v.oid) + TLV(v.tag, v.value);
    TLVLonger(0x30, content);
    PrintedBindingCollected(v, sanitize, vars);
    hide CollectOne, TLV, Read, Bound;
    TLVReads(0x30, content, rest);
  }

  function BoundAll(vars: map<Octets, Octets>, vs: seq<Binding>, sanitize: Octets -> Octets): (r: map<Octets, Octets>)
    decreases |vs|
  {
    if vs == [] then vars else BoundAll(Bound(vars, vs[0], sanitize), vs[1..], sanitize)
  }

  lemma {:induction false} PrintedBindingsCollected(vs: seq<Binding>, sanitize: Octets -> Octets, vars: map<Octets,
                                                    Octets>)
    requires |PrintBindings(vs)| < LIMIT
    ensures Collect(PrintBindings(vs), sanitize, vars) == BoundAll(vars, vs, sanitize)
    decreases |vs|
  {
    if vs != [] {
      hide PrintBinding, Bound, Collect;
      PrintedBindingsCollected(vs[1..], sanitize, Bound(vars, vs[0], sanitize));
      FirstBindingCollected(vs[0], PrintBindings(vs[1..]), sanitize, vars);
    }
  }

  lemma {:induction false} BoundAllHolds(vars: map<Octets, Octets>, done: seq<Binding>, todo: seq<Binding>,
                                         sanitize: Octets -> Octets)
    requires Holds(vars, done, sanitize)
    ensures Holds(BoundAll(vars, todo, sanitize), done + todo, sanitize)
    decreases |todo|
  {
    hide Holds, Bound;
    if todo == [] {
      assert done + todo == done;
    } else {
      HoldsStep(vars, done, todo[0], sanitize);
      BoundAllHolds(Bound(vars, todo[0], sanitize), done + [todo[0]], todo[1..], sanitize);
      assert (done + [todo[0]]) + todo[1..] == done + todo;
    }
  }

  /**
   * Parsing a printed response gives exactly its OCTET STRING bindings, sanitized and with the last
   * one of each identifier, whatever the other fields hold and whatever follows the message.
   */
  lemma PrintedResponseParses(m: Message, trailing: Octets, sanitize: Octets -> Octets)
    requires |Print(m)| < LIMIT
    ensures Holds(Varbinds(Print(m) + trailing, sanitize), m.bindings, sanitize)
  {
    PrintedListFound(m, trailing);
    ListShorter(m);
    assert Holds(map[], [], sanitize);
    PrintedBindingsCollected(m.bindings, sanitize, map[]);
    BoundAllHolds(map[], [], m.bindings, sanitize);
    assert [] + m.bindings == m.bindings;
  }

  lemma ListShorter(m: Message)
    ensures |PrintBindings(m.bindings)| < |Print(m)|
  {
    hide PrintBindings;
  }

  // ---- requests ----

  function Get(reqID: nat, community: Octets, oids: seq<Octets>): (m: Message) {
    Message(Field(0x02, IntBytes(1)), Field(0x04, community), 0xA0,
            Field(0x02, IntBytes(reqID)), Field(0x02, IntBytes(0)), Field(0x02, IntBytes(0)),
            Nulls(oids))
  }

  function Nulls(oids: seq<Octets>): (vs: seq<Binding>) {
    seq(|oids|, i requires 0 <= i < |oids| => Binding(oids[i], 0x05, []))
  }

  /** buildSNMPGet; None stands for the panic on a negative request number. */
  method BuildSNMPGet(reqID: int, community: Octets, oids: seq<Octets>) returns (b: Option<Octets>)
    ensures b == if reqID < 0 then None else Some(Print(Get(reqID, community, oids)))
  {
    var bindings := PrintNulls(oids);
    hide IntBytes, PrintBindings, TLV;
    var list := Asn1TLV(0x30, bindings);
    var id := Asn1Int(reqID);
    if id.None? {
      return None;
    }
    var zero := Asn1Int(0);
    var pdu := Asn1TLV(0xA0, id.value + (zero.value + (zero.value + list)));
    var one := Asn1Int(1);
    var name := Asn1TLV(0x04, community);
    var message := Asn1TLV(0x30, one.value + (name + pdu));
    b := Some(message);
  }

  method PrintNulls(oids: seq<Octets>) returns (b: Octets)
    ensures b == PrintBindings(Nulls(oids))
  {
    b := [];
    assert oids[..0] == [] && PrintBindings(Nulls([])) == [];
    hide Nulls, PrintBindings, PrintBinding;
    for i := 0 to |oids|
      invariant b == PrintBindings(Nulls(oids[..i]))
    {
      var vb := PrintNull(oids[i]);
      NullsSnoc(oids, i);
      b := b + vb;
    }
    assert oids[..|oids|] == oids;
  }

  lemma NullsSnoc(oids: seq<Octets>, i: nat)
    requires i < |oids|
    ensures PrintBindings(Nulls(oids[..i + 1]))
         == PrintBindings(Nulls(oids[..i])) + PrintBinding(Binding(oids[i], 0x05, []))
  {
    hide PrintBindings, PrintBinding;
    assert Nulls(oids[..i + 1]) == Nulls(oids[..i]) + [Binding(oids[i], 0x05, [])];
    PrintBindingsSnoc(Nulls(oids[..i]), Binding(oids[i], 0x05, []));
  }

  /** The name of a variable, bound to null. */
  method PrintNull(oid: Octets) returns (b: Octets)
    ensures b == PrintBinding(Binding(oid, 0x05, []))
  {
    assert TLV(0x05, []) == [0x05, 0x00];
    hide TLV;
    var name := Asn1TLV(0x06, oid);
    b := Asn1TLV(0x30, name + [0x05, 0x00]);
  }

  lemma {:induction false} PrintBindingsSnoc(vs: seq<Binding>, v: Binding)
    ensures PrintBindings(vs + [v]) == PrintBindings(vs) + PrintBinding(v)
  {
    hide PrintBinding;
    if vs == [] {
      assert vs + [v] == [v];
      assert PrintBindings([v]) == PrintBinding(v) + PrintBindings([]);
    } else {
      PrintBindingsSnoc(vs[1..], v);
      assert (vs + [v])[1..] == vs[1..] + [v];
    }
  }

  // ---- what a request says ----

  /** A message read field by field, all of it (RFC 3416 section 3). */
  function ReadMessage(b: Octets): (m: Option<Message>) {
    var message := Read(b);
    var version := Read(Content(message));
    var community := Read(Rest(version));
    var pdu := Read(Rest(community));
    var id := Read(Content(pdu));
    var status := Read(Rest(id));
    var index := Read(Rest(status));
    var list := Read(Rest(index));
    var bindings := ReadBindings(Content(list));
    if message.Some? && version.Some? && community.Some? && pdu.Some? && id.Some? && status.Some? && index.Some?
       && list.Some? && bindings.Some? && message.value.tag == 0x30 && list.value.tag == 0x30
    then Some(Message(FieldOf(version), FieldOf(community), pdu.value.tag, FieldOf(id), FieldOf(status), FieldOf(index),
                      bindings.value))
    else None
  }

  function Content(t: Option<Triple>): (b: Octets) {
    if t.Some? then t.value.content else []
  }

  function Rest(t: Option<Triple>): (b: Octets) {
    if t.Some? then t.value.rest else []
  }

  function FieldOf(t: Option<Triple>): (f: Field)
    requires t.Some?
  {
    Field(t.value.tag, t.value.content)
  }

  function ReadBindings(list: Octets): (vs: Option<seq<Binding>>)
    decreases |list|
  {
    if list == [] then Some([])
    else
      var vb := Read(list);
      var oid := Read(Content(vb));
      var value := Read(Rest(oid));
      if vb.None? || oid.None? || value.None? || vb.value.tag != 0x30 || oid.value.tag != 0x06 then None
      else
        var more := ReadBindings(vb.value.rest);
        if more.None? then None
        else Some([Binding(oid.value.content, value.value.tag, value.value.content)] + more.value)
  }

  lemma FirstBindingRead(v: Binding, rest: Octets)
    requires |PrintBinding(v)| < LIMIT
    ensures ReadBindings(PrintBinding(v) + rest)
         == if ReadBindings(rest).None? then None else Some([v] + ReadBindings(rest).value)
  {
    var content := TLV(0x06, v.oid) + TLV(v.tag, v.value);
    TLVLonger(0x30, content);
    TLVLonger(0x06, v.oid);
    TLVLonger(v.tag, v.value);
    hide TLV, Read;
    TLVReads(0x30, content, rest);
    TLVReads(0x06, v.oid, TLV(v.tag, v.value));
    TLVReadsAlone(v.tag, v.value);
  }

  lemma {:induction false} BindingsRead(vs: seq<Binding>)
    requires |PrintBindings(vs)| < LIMIT
    ensures ReadBindings(PrintBindings(vs)) == Some(vs)
    decreases |vs|
  {
    if vs != [] {
      BindingsRead(vs[1..]);
      assert PrintBindings(vs) == PrintBinding(vs[0]) + PrintBindings(vs[1..]);
      hide ReadBindings, PrintBinding, PrintBindings;
      FirstBindingRead(vs[0], PrintBindings(vs[1..]));
      assert vs == [vs[0]] + vs[1..];
    }
  }

  lemma MessageRead(m: Message)
    requires |Print(m)| < LIMIT
    ensures ReadMessage(Print(m)) == Some(m)
  {
    var list := PrintBindings(m.bindings);
    var pdu := PrintPDU(m);
    var fields := PrintField(m.version) + (PrintField(m.community) + TLV(m.pduTag, pdu));
    TLVLonger(0x30, fields);
    TLVLonger(m.version.tag, m.version.content);
    TLVLonger(m.community.tag, m.community.content);
    TLVLonger(m.pduTag, pdu);
    TLVLonger(m.requestID.tag, m.requestID.content);
    TLVLonger(m.status.tag, m.status.content);
    TLVLonger(m.index.tag, m.index.content);
    TLVLonger(0x30, list);
    hide TLV, Read, PrintBindings, ReadBindings;
    TLVReadsAlone(0x30, fields);
    TLVReads(m.version.tag, m.version.content, PrintField(m.community) + TLV(m.pduTag, pdu));
    TLVReads(m.community.tag, m.community.content, TLV(m.pduTag, pdu));
    TLVReadsAlone(m.pduTag, pdu);
    TLVReads(m.requestID.tag, m.requestID.content, PrintField(m.status) + (PrintField(m.index) + TLV(0x30, list)));
    TLVReads(m.status.tag, m.status.content, PrintField(m.index) + TLV(0x30, list));
    TLVReads(m.index.tag, m.index.content, TLV(0x30, list));
    TLVReadsAlone(0x30, list);
    BindingsRead(m.bindings);
  }

  /** Version 1, the community, the request number, no error, and each identifier in order, bound to null. */
  predicate Asks(m: Message, reqID: nat, community: Octets, oids: seq<Octets>) {
    && m.version == Field(0x02, [1]) && m.community == Field(0x04, community) && m.pduTag == 0xA0
    && m.requestID.tag == 0x02 && m.requestID.content != [] && TwosComplement(m.requestID.content) == reqID
    && m.status == Field(0x02, [0]) && m.index == Field(0x02, [0])
    && |m.bindings| == |oids| && forall i | 0 <= i < |oids| :: m.bindings[i] == Binding(oids[i], 0x05, [])
  }

  /** A request is, read field by field, an SNMPv2c GetRequest. */
  lemma RequestIsGet(reqID: nat, community: Octets, oids: seq<Octets>)
    requires |Print(Get(reqID, community, oids))| < LIMIT
    ensures var r := ReadMessage(Print(Get(reqID, community, oids)));
            r.Some? && Asks(r.value, reqID, community, oids)
  {
    hide ReadMessage, Print, IntBytes, TwosComplement;
    MessageRead(Get(reqID, community, oids));
    IntRoundTrip(reqID);
    SmallInts();
  }

  lemma SmallInts()
    ensures IntBytes(0) == [0] && IntBytes(1) == [1]
  {
    assert Digits(0) == [] && Digits(1) == Digits(0) + [1];
  }

  /** A request carries no values: parsed as a response it gives nothing. */
  lemma RequestParsesToNothing(reqID: nat, community: Octets, oids: seq<Octets>, sanitize: Octets -> Octets)
    requires |Print(Get(reqID, community, oids))| < LIMIT
    ensures Varbinds(Print(Get(reqID, community, oids)), sanitize) == map[]
  {
    var m := Get(reqID, community, oids);
    hide IntBytes;
    PrintedResponseParses(m, [], sanitize);
    hide Varbinds, Print;
    assert Print(m) + [] == Print(m);
    var vars := Varbinds(Print(m), sanitize);
    forall key ensures key !in vars {
      if key in vars {
        var oid :| key == Hex(oid);
        NoStrings(m.bindings, oid);
      }
    }
  }

  lemma NoStrings(vs: seq<Binding>, oid: Octets)
    requires forall v | v in vs :: v.tag != 0x04
    ensures LastString(vs, oid).None?
  {
  }
}
