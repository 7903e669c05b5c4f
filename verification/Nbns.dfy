/** parseNBNSName of main.go: the computer name in a NetBIOS node-status response. */
module Nbns {
  import opened Wrappers
  import opened Octets

  const RDATA := 56
  const ENTRY := 18
  const GROUP := 0x8000

  /** strings.TrimRight(name, " \x00"). */
  function TrimPadding(name: Octets): (r: Octets) {
    if name != [] && (name[|name| - 1] == 32 || name[|name| - 1] == 0) then TrimPadding(name[..|name| - 1]) else name
  }

  /** The entries from `offset` on; `fallback` is the first usable name so far. */
  function Scan(resp: Octets, offset: nat, count: nat, fallback: Octets): (name: Octets)
    decreases count
  {
    if count == 0 || offset + ENTRY > |resp| then fallback
    else
      var name := TrimPadding(resp[offset..offset + 15]);
      if Big16At(resp, offset + 16) >= GROUP || name == [] then Scan(resp, offset + ENTRY, count - 1, fallback)
      else if resp[offset + 15] == 0 then name
      else Scan(resp, offset + ENTRY, count - 1, if fallback == [] then name else fallback)
  }

  function NodeName(resp: Octets, sanitize: Octets -> Octets): (name: Octets) {
    if |resp| <= RDATA || Big16At(resp, 6) == 0 then []
    else sanitize(Scan(resp, RDATA + 1, resp[RDATA], []))
  }

  method ParseNBNSName(resp: Octets, sanitize: Octets -> Octets) returns (r: Octets)
    ensures r == NodeName(resp, sanitize)
  {
    hide TrimPadding;
    if |resp| <= RDATA {
      return [];
    }
    if Big16At(resp, 6) == 0 {
      return [];
    }
    var numNames: int := resp[RDATA];
    var offset := RDATA + 1;
    var fallback: Octets := [];
    var i := 0;
    while i < numNames
      invariant 0 <= i <= numNames && offset >= 0
      invariant Scan(resp, RDATA + 1, numNames, []) == Scan(resp, offset, numNames - i, fallback)
    {
      i := i + 1;
      if offset + ENTRY > |resp| {
        break;
      }
      var entry := resp[offset..offset + ENTRY];
      assert entry[0..15] == resp[offset..offset + 15] && Big16At(entry, 16) == Big16At(resp, offset + 16);
      offset := offset + ENTRY;
      var name := TrimPadding(entry[0..15]);
      var suffix := entry[15];
      var group := Big16At(entry, 16) >= GROUP;
      if group || name == [] {
        continue;
      }
      if suffix == 0x00 {
        return sanitize(name);
      }
      if fallback == [] {
        fallback := name;
      }
    }
    return sanitize(fallback);
  }

  // ---- printed responses ----

  predicate IsPadding(c: Octet) {
    c == 32 || c == 0
  }

  /** A name of 15 bytes: its text, and the blanks and zero bytes behind it. */
  datatype Entry = Entry(text: Octets, padding: Octets, suffix: Octet, flags: nat) {
    predicate Valid() {
      && |text + padding| == 15 && flags < 0x1_0000
      && (text == [] || !IsPadding(text[|text| - 1])) && forall c | c in padding :: IsPadding(c)
    }

    /** A unique, not a group name, that is not blank. */
    predicate Usable() {
      flags < 0x8000 && text != []
    }
  }

  /** Trimming finds the text, whatever the padding. */
  lemma {:induction false} PaddingTrimmed(text: Octets, padding: Octets)
    requires (text == [] || !IsPadding(text[|text| - 1])) && forall c | c in padding :: IsPadding(c)
    ensures TrimPadding(text + padding) == text
  {
    if padding == [] {
      assert text + padding == text;
    } else {
      var front := padding[..|padding| - 1];
      assert padding[|padding| - 1] in padding;
      PaddingTrimmed(text, front);
      assert (text + padding)[..|text + padding| - 1] == text + front;
    }
  }

  /** Any bytes are a text and padding. */
  lemma {:induction false} AnyName(name: Octets) returns (text: Octets, padding: Octets)
    ensures name == text + padding
    ensures (text == [] || !IsPadding(text[|text| - 1])) && forall c | c in padding :: IsPadding(c)
  {
    if name == [] || !IsPadding(name[|name| - 1]) {
      text, padding := name, [];
    } else {
      text, padding := AnyName(name[..|name| - 1]);
      padding := padding + [name[|name| - 1]];
    }
  }

  function PrintEntry(e: Entry): (b: Octets)
    requires e.Valid()
    ensures |b| == 18
  {
    e.text + e.padding + [e.suffix] + Big16(e.flags)
  }

  function PrintEntries(es: seq<Entry>): (b: Octets)
    requires forall e | e in es :: e.Valid()
  {
    if es == [] then [] else PrintEntry(es[0]) + PrintEntries(es[1..])
  }

  /** The index of the first usable entry, or of the first usable one with suffix 0. */
  function FirstUsable(es: seq<Entry>, workstation: bool): (r: Option<nat>)
    ensures r.Some? ==>
              && r.value < |es| && Wanted(es[r.value], workstation)
              && forall k | 0 <= k < r.value :: !Wanted(es[k], workstation)
    ensures r.None? ==> forall k | 0 <= k < |es| :: !Wanted(es[k], workstation)
  {
    if es == [] then None
    else if Wanted(es[0], workstation) then Some(0)
    else
      var later := FirstUsable(es[1..], workstation);
      if later.None? then None else Some(later.value + 1)
  }

  predicate Wanted(e: Entry, workstation: bool) {
    e.Usable() && (workstation ==> e.suffix == 0)
  }

  function Choice(es: seq<Entry>): (name: Octets) {
    var w, u := FirstUsable(es, true), FirstUsable(es, false);
    if w.Some? then es[w.value].text else if u.Some? then es[u.value].text else []
  }

  lemma EntryReads(b: Octets, offset: nat, e: Entry)
    requires e.Valid() && StandsAt(b, offset, PrintEntry(e))
    ensures offset + ENTRY <= |b| && TrimPadding(b[offset..offset + 15]) == e.text && b[offset + 15] == e.suffix
    ensures Big16At(b, offset + 16) == e.flags
  {
    var p := b[offset..offset + ENTRY];
    assert p == PrintEntry(e);
    assert b[offset..offset + 15] == p[..15] == e.text + e.padding;
    assert b[offset + 15] == p[15] && b[offset + 16] == p[16] && b[offset + 17] == p[17];
    PaddingTrimmed(e.text, e.padding);
    hide TrimPadding;
  }

  lemma {:induction false} PrintedEntriesScanned(b: Octets, offset: nat, es: seq<Entry>, fallback: Octets)
    requires (forall e | e in es :: e.Valid()) && StandsAt(b, offset, PrintEntries(es))
    ensures var w := FirstUsable(es, true);
            Scan(b, offset, |es|, fallback)
            == if w.Some? || fallback == [] then Choice(es) else fallback
    decreases |es|
  {
    if es != [] {
      var e := es[0];
      assert e.Valid();
      StandsAtConcat(b, offset, PrintEntry(e), PrintEntries(es[1..]));
      EntryReads(b, offset, e);
      hide TrimPadding, PrintEntry, Big16At, StandsAt, Entry.Valid;
      PrintedEntriesScanned(b, offset + ENTRY, es[1..], fallback);
      if e.Usable() && e.suffix != 0 && fallback == [] {
        PrintedEntriesScanned(b, offset + ENTRY, es[1..], e.text);
      }
    }
  }

  function Response(header: Octets, count: Octet, body: Octets, after: Octets): (b: Octets) {
    header + [count] + body + after
  }

  lemma ResponseParts(header: Octets, count: Octet, body: Octets, after: Octets)
    requires |header| == RDATA
    ensures var b := Response(header, count, body, after);
            |b| > RDATA && Big16At(b, 6) == Big16At(header, 6) && b[RDATA] == count && StandsAt(b, RDATA + 1, body)
  {
    var b := Response(header, count, body, after);
    assert b[RDATA + 1..RDATA + 1 + |body|] == body;
  }

  /**
   * From a response with an answer the parser takes the first unique name of the workstation
   * service, or else the first unique name of any service; without an answer there is none.
   */
  lemma PrintedNodeStatusRead(header: Octets, es: seq<Entry>, after: Octets, sanitize: Octets -> Octets)
    requires |header| == 56 && |es| < 256 && forall e | e in es :: e.Valid()
    ensures NodeName(Response(header, |es|, PrintEntries(es), after), sanitize)
         == if Big16At(header, 6) == 0 then [] else sanitize(Choice(es))
  {
    var b := Response(header, |es|, PrintEntries(es), after);
    hide PrintEntries, Choice, FirstUsable, Scan, Response;
    ResponseParts(header, |es|, PrintEntries(es), after);
    PrintedEntriesScanned(b, RDATA + 1, es, []);
  }
}
