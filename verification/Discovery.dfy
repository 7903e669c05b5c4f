/**
 * The merge of LAN discovery results: four protocols report what they heard about each address, each
 * when it is done, and runLANDiscovery folds the reports into one map under a lock.
 */
module Discovery {
  import opened Wrappers
  import opened Octets
  import opened Sorting
  import opened IPv4
  import opened TextLists

  /** discoveryHit; its address is the key it is stored under. */
  datatype Hit = Hit(sources: seq<Text>, mdnsName: Text, mdnsServices: seq<Text>, llmnrName: Text, ssdpServer: Text,
                     upnpType: Text, upnpLocation: Text, upnpFriendly: Text, upnpModel: Text,
                     wsdTypes: seq<Text>, wsdXAddrs: seq<Text>, wsdScopes: seq<Text>)

  const EMPTY := Hit([], [], [], [], [], [], [], [], [], [], [], [])

  /** The second text only where the first is empty. */
  function First(a: Text, b: Text): (r: Text) {
    if a == [] then b else a
  }

  function Merge(dst: Hit, src: Hit, ops: TextOps): (r: Hit) {
    Hit(AppendEach(dst.sources, src.sources, ops),
        First(dst.mdnsName, src.mdnsName),
        AppendUnique(dst.mdnsServices, src.mdnsServices, ops),
        First(dst.llmnrName, src.llmnrName),
        First(dst.ssdpServer, src.ssdpServer),
        First(dst.upnpType, src.upnpType),
        First(dst.upnpLocation, src.upnpLocation),
        First(dst.upnpFriendly, src.upnpFriendly),
        First(dst.upnpModel, src.upnpModel),
        AppendUnique(dst.wsdTypes, src.wsdTypes, ops),
        AppendUnique(dst.wsdXAddrs, src.wsdXAddrs, ops),
        AppendUnique(dst.wsdScopes, src.wsdScopes, ops))
  }

  /** mergeDiscoveryHit, field by field. */
  method MergeDiscoveryHit(dst: Hit, src: Hit, ops: TextOps) returns (r: Hit)
    ensures r == Merge(dst, src, ops)
  {
    hide AppendEach, AppendUnique;
    r := dst;
    var list := AppendSource(r.sources, src.sources, ops);
    r := r.(sources := list);
    if r.mdnsName == [] {
      r := r.(mdnsName := src.mdnsName);
    }
    list := AppendUniqueStrings(r.mdnsServices, src.mdnsServices, ops);
    r := r.(mdnsServices := list);
    if r.llmnrName == [] {
      r := r.(llmnrName := src.llmnrName);
    }
    if r.ssdpServer == [] {
      r := r.(ssdpServer := src.ssdpServer);
    }
    if r.upnpType == [] {
      r := r.(upnpType := src.upnpType);
    }
    if r.upnpLocation == [] {
      r := r.(upnpLocation := src.upnpLocation);
    }
    if r.upnpFriendly == [] {
      r := r.(upnpFriendly := src.upnpFriendly);
    }
    if r.upnpModel == [] {
      r := r.(upnpModel := src.upnpModel);
    }
    list := AppendUniqueStrings(r.wsdTypes, src.wsdTypes, ops);
    r := r.(wsdTypes := list);
    list := AppendUniqueStrings(r.wsdXAddrs, src.wsdXAddrs, ops);
    r := r.(wsdXAddrs := list);
    list := AppendUniqueStrings(r.wsdScopes, src.wsdScopes, ops);
    r := r.(wsdScopes := list);
  }

  /** The locked merge of runLANDiscovery: one partial result into the hits so far. */
  function MergePartial(hits: map<Addr, Hit>, partial: map<Addr, Hit>, net: Net, ops: TextOps): (r: map<Addr, Hit>)
    requires net.ones <= 32
  {
    map ip | ip in hits.Keys + partial.Keys && (ip in hits || InTarget(ip, net)) ::
      if ip in partial && InTarget(ip, net)
      then Merge(if ip in hits then hits[ip] else EMPTY, partial[ip], ops)
      else hits[ip]
  }

  method MergeLocked(hits: map<Addr, Hit>, partial: map<Addr, Hit>, net: Net, ops: TextOps) returns (r: map<Addr, Hit>)
    requires net.ones <= 32
    ensures r == MergePartial(hits, partial, net, ops)
  {
    hide InTarget, Merge;
    r := hits;
    var todo := partial.Keys;
    while todo != {}
      invariant todo <= partial.Keys
      invariant forall ip :: ip in r <==> ip in hits || (ip in partial && ip !in todo && InTarget(ip, net))
      invariant forall ip | ip in r :: r[ip] == if ip in partial && ip !in todo && InTarget(ip, net)
                  then Merge(if ip in hits then hits[ip] else EMPTY, partial[ip], ops) else hits[ip]
    {
      var ip :| ip in todo;
      todo := todo - {ip};
      if !InTarget(ip, net) {
        continue;
      }
      var cur := if ip in r then r[ip] else EMPTY;
      cur := MergeDiscoveryHit(cur, partial[ip], ops);
      r := r[ip := cur];
    }
  }

  // ---- laws of the merge ----

  ghost predicate NormalHit(h: Hit, ops: TextOps) {
    Normal(h.sources, ops) && Normal(h.mdnsServices, ops) && Normal(h.wsdTypes, ops) && Normal(h.wsdXAddrs, ops)
    && Normal(h.wsdScopes, ops)
  }

  lemma SourcesAppend(a: Hit, b: Hit, ops: TextOps)
    requires NormalHit(a, ops) && Sane(ops)
    ensures Merge(a, b, ops).sources == AppendUnique(a.sources, b.sources, ops)
  {
    hide Normal, AppendUnique, AppendEach;
    AppendEachIsAppendUnique(a.sources, b.sources, ops);
  }

  lemma MergeKeepsNormal(a: Hit, b: Hit, ops: TextOps)
    requires NormalHit(a, ops) && NormalHit(b, ops) && Sane(ops)
    ensures NormalHit(Merge(a, b, ops), ops)
  {
    hide Normal, AppendUnique, AppendEach, Entry;
    SourcesAppend(a, b, ops);
    AppendNormal(a.sources, b.sources, [], ops);
    AppendNormal(a.mdnsServices, b.mdnsServices, [], ops);
    AppendNormal(a.wsdTypes, b.wsdTypes, [], ops);
    AppendNormal(a.wsdXAddrs, b.wsdXAddrs, [], ops);
    AppendNormal(a.wsdScopes, b.wsdScopes, [], ops);
  }

  lemma MergeAssociative(a: Hit, b: Hit, c: Hit, ops: TextOps)
    requires NormalHit(a, ops) && NormalHit(b, ops) && NormalHit(c, ops) && Sane(ops)
    ensures Merge(Merge(a, b, ops), c, ops) == Merge(a, Merge(b, c, ops), ops)
  {
    MergeKeepsNormal(a, b, ops);
    hide Normal, AppendUnique, AppendEach, Entry, Sane;
    SourcesAppend(a, b, ops);
    SourcesAppend(b, c, ops);
    SourcesAppend(Merge(a, b, ops), c, ops);
    SourcesAppend(a, Merge(b, c, ops), ops);
    AppendAssociative(a.sources, b.sources, c.sources, ops);
    AppendAssociative(a.mdnsServices, b.mdnsServices, c.mdnsServices, ops);
    AppendAssociative(a.wsdTypes, b.wsdTypes, c.wsdTypes, ops);
    AppendAssociative(a.wsdXAddrs, b.wsdXAddrs, c.wsdXAddrs, ops);
    AppendAssociative(a.wsdScopes, b.wsdScopes, c.wsdScopes, ops);
  }

  lemma MergeIdempotent(a: Hit, ops: TextOps)
    requires NormalHit(a, ops) && Sane(ops)
    ensures Merge(a, a, ops) == a && Merge(EMPTY, a, ops) == a && Merge(a, EMPTY, ops) == a
  {
    EmptyNormal(ops);
    hide Normal, AppendUnique, AppendEach;
    SourcesAppend(a, a, ops);
    SourcesAppend(EMPTY, a, ops);
    SourcesAppend(a, EMPTY, ops);
    AppendIdempotent(a.sources, ops);
    AppendIdempotent(a.mdnsServices, ops);
    AppendIdempotent(a.wsdTypes, ops);
    AppendIdempotent(a.wsdXAddrs, ops);
    AppendIdempotent(a.wsdScopes, ops);
  }

  predicate AgreeText(a: Text, b: Text) {
    a == [] || b == [] || a == b
  }

  /** No text field is filled with two different texts, and lists spell shared keys alike. */
  ghost predicate Compatible(a: Hit, b: Hit, ops: TextOps) {
    && AgreeText(a.mdnsName, b.mdnsName) && AgreeText(a.llmnrName, b.llmnrName) && AgreeText(a.ssdpServer, b.ssdpServer)
    && AgreeText(a.upnpType, b.upnpType) && AgreeText(a.upnpLocation, b.upnpLocation)
    && AgreeText(a.upnpFriendly, b.upnpFriendly) && AgreeText(a.upnpModel, b.upnpModel)
    && Agree(a.sources, b.sources, ops) && Agree(a.mdnsServices, b.mdnsServices, ops)
    && Agree(a.wsdTypes, b.wsdTypes, ops) && Agree(a.wsdXAddrs, b.wsdXAddrs, ops)
    && Agree(a.wsdScopes, b.wsdScopes, ops)
  }

  /** Two hits may be merged in either order exactly when they are compatible. */
  lemma MergeCommutes(a: Hit, b: Hit, ops: TextOps)
    requires NormalHit(a, ops) && NormalHit(b, ops) && Sane(ops)
    ensures Merge(a, b, ops) == Merge(b, a, ops) <==> Compatible(a, b, ops)
  {
    hide Normal, AppendUnique, AppendEach, Agree;
    SourcesAppend(a, b, ops);
    SourcesAppend(b, a, ops);
    AppendCommutes(a.sources, b.sources, ops);
    AppendCommutes(a.mdnsServices, b.mdnsServices, ops);
    AppendCommutes(a.wsdTypes, b.wsdTypes, ops);
    AppendCommutes(a.wsdXAddrs, b.wsdXAddrs, ops);
    AppendCommutes(a.wsdScopes, b.wsdScopes, ops);
  }

  // ---- merging in any order ----

  /** Hits merged from left to right. */
  function Merged(hs: seq<Hit>, ops: TextOps): (r: Hit) {
    if hs == [] then EMPTY else Merge(Merged(hs[..|hs| - 1], ops), hs[|hs| - 1], ops)
  }

  ghost predicate Mergeable(hs: seq<Hit>, ops: TextOps) {
    && (forall i | 0 <= i < |hs| :: NormalHit(hs[i], ops))
    && (forall i, j | 0 <= i < |hs| && 0 <= j < |hs| :: Compatible(hs[i], hs[j], ops))
  }

  lemma {:induction false} MergedNormal(hs: seq<Hit>, ops: TextOps)
    requires (forall i | 0 <= i < |hs| :: NormalHit(hs[i], ops)) && Sane(ops)
    ensures NormalHit(Merged(hs, ops), ops)
  {
    EmptyNormal(ops);
    if hs != [] {
      hide Merge, NormalHit;
      MergedNormal(hs[..|hs| - 1], ops);
      MergeKeepsNormal(Merged(hs[..|hs| - 1], ops), hs[|hs| - 1], ops);
    }
  }

  /** Any of the hits may be merged last. */
  lemma {:induction false} MergedLast(hs: seq<Hit>, i: nat, ops: TextOps)
    requires i < |hs| && Mergeable(hs, ops) && Sane(ops)
    ensures Merged(hs, ops) == Merge(Merged(hs[..i] + hs[i + 1..], ops), hs[i], ops)
    decreases |hs|
  {
    hide Merge, NormalHit, Compatible, Sane;
    var front, last := hs[..|hs| - 1], hs[|hs| - 1];
    if i == |hs| - 1 {
      assert hs[..i] + hs[i + 1..] == front;
    } else {
      var x := front[..i] + front[i + 1..];
      MergedLast(front, i, ops);
      assert front[i] == hs[i];
      assert hs[..i] + hs[i + 1..] == x + [last];
      assert (x + [last])[..|x|] == x;
      MergedNormal(x, ops);
      var m := Merged(x, ops);
      MergeAssociative(m, hs[i], last, ops);
      MergeAssociative(m, last, hs[i], ops);
      MergeCommutes(hs[i], last, ops);
    }
  }

  /** Compatible hits give the same result in every order. */
  lemma {:induction false} MergedInAnyOrder(hs: seq<Hit>, gs: seq<Hit>, ops: TextOps)
    requires Mergeable(hs, ops) && Sane(ops) && multiset(hs) == multiset(gs)
    ensures Merged(hs, ops) == Merged(gs, ops)
    decreases |hs|
  {
    hide Merge, NormalHit, Compatible, Sane, Mergeable;
    if gs == [] {
      assert |multiset(hs)| == 0;
    } else {
      var i := TakeLastOut(hs, gs);
      MergedLast(hs, i, ops);
      MergeableWithout(hs, i, ops);
      MergedInAnyOrder(hs[..i] + hs[i + 1..], gs[..|gs| - 1], ops);
    }
  }

  lemma MergeableWithout(hs: seq<Hit>, i: nat, ops: TextOps)
    requires i < |hs| && Mergeable(hs, ops)
    ensures Mergeable(hs[..i] + hs[i + 1..], ops)
  {
    hide NormalHit, Compatible;
    var others := hs[..i] + hs[i + 1..];
    assert forall k | 0 <= k < |others| :: others[k] == hs[if k < i then k else k + 1];
  }

  // ---- which text is kept ----

  datatype TextField = MdnsName | LlmnrName | SsdpServer | UpnpType | UpnpLocation | UpnpFriendly | UpnpModel

  function TextOf(h: Hit, f: TextField): (t: Text) {
    match f
    case MdnsName => h.mdnsName
    case LlmnrName => h.llmnrName
    case SsdpServer => h.ssdpServer
    case UpnpType => h.upnpType
    case UpnpLocation => h.upnpLocation
    case UpnpFriendly => h.upnpFriendly
    case UpnpModel => h.upnpModel
  }

  /** Merging never replaces a text: the later one fills the field only if it is empty. */
  lemma MergeKeepsText(dst: Hit, src: Hit, f: TextField, ops: TextOps)
    ensures TextOf(dst, f) != [] ==> TextOf(Merge(dst, src, ops), f) == TextOf(dst, f)
    ensures TextOf(dst, f) == [] ==> TextOf(Merge(dst, src, ops), f) == TextOf(src, f)
  {
    hide AppendUnique, AppendEach;
  }

  lemma {:induction false} MergedWithoutText(hs: seq<Hit>, f: TextField, ops: TextOps)
    requires forall h | h in hs :: TextOf(h, f) == []
    ensures TextOf(Merged(hs, ops), f) == []
  {
    if hs != [] {
      var front, last := hs[..|hs| - 1], hs[|hs| - 1];
      MergeKeepsText(Merged(front, ops), last, f, ops);
      assert last in hs && forall h | h in front :: h in hs;
      hide Merge, TextOf;
      MergedWithoutText(front, f, ops);
    }
  }

  /** Of several hits the first with a text decides the field. */
  lemma {:induction false} MergedKeepsFirst(hs: seq<Hit>, i: nat, f: TextField, ops: TextOps)
    requires i < |hs| && TextOf(hs[i], f) != [] && forall k | 0 <= k < i :: TextOf(hs[k], f) == []
    ensures TextOf(Merged(hs, ops), f) == TextOf(hs[i], f)
  {
    var front, last := hs[..|hs| - 1], hs[|hs| - 1];
    MergeKeepsText(Merged(front, ops), last, f, ops);
    hide Merge, TextOf;
    if i < |front| {
      MergedKeepsFirst(front, i, f, ops);
    } else {
      MergedWithoutText(front, f, ops);
    }
  }

  // ---- whole discovery runs ----

  /** The merges of a run, in the order the protocols finish. */
  function MergeAll(partials: seq<map<Addr, Hit>>, net: Net, ops: TextOps): (hits: map<Addr, Hit>)
    requires net.ones <= 32
  {
    if partials == [] then map[]
    else MergePartial(MergeAll(partials[..|partials| - 1], net, ops), partials[|partials| - 1], net, ops)
  }

  function HitAt(partial: map<Addr, Hit>, ip: Addr): (h: Hit) {
    if ip in partial then partial[ip] else EMPTY
  }

  function HitsAt(partials: seq<map<Addr, Hit>>, ip: Addr): (hs: seq<Hit>)
    ensures |hs| == |partials|
    ensures forall i | 0 <= i < |hs| :: hs[i] == HitAt(partials[i], ip)
  {
    if partials == [] then [] else HitsAt(partials[..|partials| - 1], ip) + [HitAt(partials[|partials| - 1], ip)]
  }

  ghost predicate Reported(partials: seq<map<Addr, Hit>>, ip: Addr) {
    exists p | p in partials :: ip in p
  }

  lemma PartialPointwise(hits: map<Addr, Hit>, partial: map<Addr, Hit>, net: Net, ops: TextOps, ip: Addr)
    requires net.ones <= 32 && Sane(ops) && NormalHit(HitAt(hits, ip), ops) && (ip in hits ==> InTarget(ip, net))
    ensures var r := MergePartial(hits, partial, net, ops);
            && (ip in r <==> (ip in hits || ip in partial) && InTarget(ip, net))
            && (InTarget(ip, net) ==> HitAt(r, ip) == Merge(HitAt(hits, ip), HitAt(partial, ip), ops))
  {
    MergeIdempotent(HitAt(hits, ip), ops);
    hide Merge, NormalHit, InTarget;
  }

  lemma ReportedSnoc(partials: seq<map<Addr, Hit>>, ip: Addr)
    requires partials != []
    ensures Reported(partials, ip) <==> Reported(partials[..|partials| - 1], ip) || ip in partials[|partials| - 1]
  {
    assert partials == partials[..|partials| - 1] + [partials[|partials| - 1]];
  }

  lemma HitsSnoc(partials: seq<map<Addr, Hit>>, ip: Addr)
    requires partials != []
    ensures var hs := HitsAt(partials, ip);
            && hs[..|hs| - 1] == HitsAt(partials[..|partials| - 1], ip)
            && hs[|hs| - 1] == HitAt(partials[|partials| - 1], ip)
  {
  }

  /** The run's hits are, address by address, the merge of what each protocol reported. */
  lemma {:induction false} MergeAllPointwise(partials: seq<map<Addr, Hit>>, net: Net, ops: TextOps, ip: Addr)
    requires net.ones <= 32 && Sane(ops)
    requires forall i | 0 <= i < |partials| :: NormalHit(HitAt(partials[i], ip), ops)
    ensures ip in MergeAll(partials, net, ops) <==> Reported(partials, ip) && InTarget(ip, net)
    ensures InTarget(ip, net) ==> HitAt(MergeAll(partials, net, ops), ip) == Merged(HitsAt(partials, ip), ops)
  {
    if partials != [] {
      var front, last := partials[..|partials| - 1], partials[|partials| - 1];
      assert forall i | 0 <= i < |front| :: front[i] == partials[i];
      HitsSnoc(partials, ip);
      ReportedSnoc(partials, ip);
      hide NormalHit, InTarget, Reported, HitsAt;
      MergeAllPointwise(front, net, ops, ip);
      assert forall i | 0 <= i < |front| :: NormalHit(HitsAt(front, ip)[i], ops);
      MergedNormal(HitsAt(front, ip), ops);
      NothingNormal(ops);
      var before := MergeAll(front, net, ops);
      assert NormalHit(HitAt(before, ip), ops);
      hide Merge, HitAt, MergePartial;
      PartialPointwise(before, last, net, ops, ip);
    }
  }

  /** A text field of a hit of the run is that of the first protocol to finish that reported one. */
  lemma RunKeepsFirst(partials: seq<map<Addr, Hit>>, i: nat, net: Net, ops: TextOps, ip: Addr, f: TextField)
    requires net.ones <= 32 && Sane(ops) && InTarget(ip, net)
    requires forall k | 0 <= k < |partials| :: NormalHit(HitAt(partials[k], ip), ops)
    requires i < |partials| && ip in partials[i] && TextOf(partials[i][ip], f) != []
    requires forall k | 0 <= k < i && ip in partials[k] :: TextOf(partials[k][ip], f) == []
    ensures ip in MergeAll(partials, net, ops)
    ensures TextOf(MergeAll(partials, net, ops)[ip], f) == TextOf(partials[i][ip], f)
  {
    assert TextOf(EMPTY, f) == [] && partials[i] in partials;
    hide NormalHit, MergeAll, Merged, InTarget, TextOf;
    MergeAllPointwise(partials, net, ops, ip);
    hide HitsAt, Reported;
    MergedKeepsFirst(HitsAt(partials, ip), i, f, ops);
  }

  lemma NothingNormal(ops: TextOps)
    ensures NormalHit(EMPTY, ops)
  {
    EmptyNormal(ops);
  }

  lemma HitsWithout(partials: seq<map<Addr, Hit>>, i: nat, ip: Addr)
    requires i < |partials|
    ensures HitsAt(partials[..i] + partials[i + 1..], ip) == HitsAt(partials, ip)[..i] + HitsAt(partials, ip)[i + 1..]
  {
    hide HitsAt, HitAt;
  }

  lemma {:induction false} HitsPermuted(a: seq<map<Addr, Hit>>, b: seq<map<Addr, Hit>>, ip: Addr)
    requires multiset(a) == multiset(b)
    ensures multiset(HitsAt(a, ip)) == multiset(HitsAt(b, ip))
    decreases |a|
  {
    hide HitsAt, HitAt;
    if b == [] {
      assert |multiset(a)| == 0;
      assert a == b;
    } else {
      var i := TakeLastOut(a, b);
      var (ha, hb) := (HitsAt(a, ip), HitsAt(b, ip));
      HitsPermuted(a[..i] + a[i + 1..], b[..|b| - 1], ip);
      HitsWithout(a, i, ip);
      TakenOut(ha, i);
      HitsWithout(b, |b| - 1, ip);
      TakenOut(hb, |b| - 1);
      assert b[..|b| - 1] + b[|b|..] == b[..|b| - 1];
    }
  }

  // ---- the four protocols ----

  datatype Protocol = SSDP | MDNS | LLMNR | WSD

  /** "ssdp", "mdns", "llmnr" and "wsd". */
  function SourceName(p: Protocol): (name: Text) {
    match p
    case SSDP => [115, 115, 100, 112]
    case MDNS => [109, 100, 110, 115]
    case LLMNR => [108, 108, 109, 110, 114]
    case WSD => [119, 115, 100]
  }

  /** A hit of one protocol: its source, and only its own fields. */
  predicate HitOf(p: Protocol, h: Hit) {
    && h.sources == [SourceName(p)]
    && match p
       case SSDP =>
         h == EMPTY.(sources := h.sources, ssdpServer := h.ssdpServer,
                     upnpType := h.upnpType, upnpLocation := h.upnpLocation)
       case MDNS => h == EMPTY.(sources := h.sources, mdnsName := h.mdnsName, mdnsServices := h.mdnsServices)
       case LLMNR => h == EMPTY.(sources := h.sources, llmnrName := h.llmnrName)
       case WSD =>
         h == EMPTY.(sources := h.sources, wsdTypes := h.wsdTypes, wsdXAddrs := h.wsdXAddrs, wsdScopes := h.wsdScopes)
  }

  /** The names of the protocols stay apart when lower-cased. */
  ghost predicate NamesApart(ops: TextOps) {
    forall p, q | p != q :: ops.lower(SourceName(p)) != ops.lower(SourceName(q))
  }

  function LowerAscii(s: Text): (r: Text) {
    seq(|s|, i requires 0 <= i < |s| => if 65 <= s[i] <= 90 then s[i] + 32 else s[i])
  }

  /** For ASCII text the assumptions on lower-casing and trimming hold. */
  lemma AsciiIsSane()
    ensures var ops := TextOps(LowerAscii, TrimSpace); Sane(ops) && NamesApart(ops) && NamesPlain(ops)
  {
    forall p: Protocol ensures TrimSpace(SourceName(p)) == SourceName(p) {
      var name := SourceName(p);
      assert !IsSpace(name[0]) && !IsSpace(name[|name| - 1]);
    }
    forall s ensures TrimSpace(TrimSpace(s)) == TrimSpace(s) {
      TrimSpaceIdempotent(s);
    }
    hide TrimSpace;
    forall p: Protocol ensures LowerAscii(SourceName(p)) == SourceName(p) {
    }
    hide LowerAscii;
    assert |SourceName(SSDP)| == |SourceName(MDNS)| == 4 && |SourceName(LLMNR)| == 5 && |SourceName(WSD)| == 3;
    assert SourceName(SSDP)[0] != SourceName(MDNS)[0];
  }

  /** They have no white space to trim. */
  ghost predicate NamesPlain(ops: TextOps) {
    forall p :: ops.trim(SourceName(p)) == SourceName(p)
  }

  datatype Report = Report(protocol: Protocol, hits: map<Addr, Hit>)

  ghost predicate Honest(r: Report, ops: TextOps) {
    forall ip | ip in r.hits :: HitOf(r.protocol, r.hits[ip]) && NormalHit(r.hits[ip], ops)
  }

  function HitMaps(reports: seq<Report>): (partials: seq<map<Addr, Hit>>) {
    seq(|reports|, i requires 0 <= i < |reports| => reports[i].hits)
  }

  lemma EntryOfOne(t: Text, key: Text, ops: TextOps)
    ensures Entry([t], key, ops) == if ops.lower(t) == key then Some(t) else None
  {
  }

  lemma AgreeWithNothing(a: seq<Text>, ops: TextOps)
    ensures Agree(a, [], ops) && Agree([], a, ops) && Agree(a, a, ops)
  {
  }

  lemma ProtocolsCompatible(p: Protocol, q: Protocol, a: Hit, b: Hit, ops: TextOps)
    requires p != q && HitOf(p, a) && HitOf(q, b) && NamesApart(ops)
    ensures Compatible(a, b, ops)
  {
    assert Agree(a.sources, b.sources, ops) by {
      forall key ensures Entry(a.sources, key, ops).None? || Entry(b.sources, key, ops).None? {
        EntryOfOne(SourceName(p), key, ops);
        EntryOfOne(SourceName(q), key, ops);
      }
      hide Entry;
    }
    AgreeWithNothing(a.mdnsServices, ops);
    AgreeWithNothing(b.mdnsServices, ops);
    AgreeWithNothing(a.wsdTypes, ops);
    AgreeWithNothing(b.wsdTypes, ops);
    AgreeWithNothing(a.wsdXAddrs, ops);
    AgreeWithNothing(b.wsdXAddrs, ops);
    AgreeWithNothing(a.wsdScopes, ops);
    AgreeWithNothing(b.wsdScopes, ops);
    hide Agree, SourceName;
  }

  lemma SelfCompatible(a: Hit, b: Hit, ops: TextOps)
    requires a == b || a == EMPTY || b == EMPTY
    ensures Compatible(a, b, ops)
  {
    AgreeWithNothing(a.sources, ops);
    AgreeWithNothing(b.sources, ops);
    AgreeWithNothing(a.mdnsServices, ops);
    AgreeWithNothing(b.mdnsServices, ops);
    AgreeWithNothing(a.wsdTypes, ops);
    AgreeWithNothing(b.wsdTypes, ops);
    AgreeWithNothing(a.wsdXAddrs, ops);
    AgreeWithNothing(b.wsdXAddrs, ops);
    AgreeWithNothing(a.wsdScopes, ops);
    AgreeWithNothing(b.wsdScopes, ops);
    hide Agree;
  }

  lemma ReportsMergeable(reports: seq<Report>, ip: Addr, ops: TextOps)
    requires Sane(ops) && NamesApart(ops) && forall r | r in reports :: Honest(r, ops)
    requires forall i, j | 0 <= i < j < |reports| :: reports[i].protocol != reports[j].protocol
    ensures Mergeable(HitsAt(HitMaps(reports), ip), ops)
  {
    var hs := HitsAt(HitMaps(reports), ip);
    EmptyNormal(ops);
    assert NormalHit(EMPTY, ops);
    assert forall i | 0 <= i < |hs| :: hs[i] == HitAt(reports[i].hits, ip) && Honest(reports[i], ops);
    hide NormalHit, HitOf, Compatible, NamesApart;
    forall i, j | 0 <= i < |hs| && 0 <= j < |hs| ensures Compatible(hs[i], hs[j], ops) {
      if i != j && ip in reports[i].hits && ip in reports[j].hits {
        ProtocolsCompatible(reports[i].protocol, reports[j].protocol, hs[i], hs[j], ops);
      } else {
        SelfCompatible(hs[i], hs[j], ops);
      }
    }
  }

  /** Reports of that form, at most one a protocol, merge to the same hits in any order. */
  lemma HonestReportsInAnyOrder(a: seq<Report>, b: seq<Report>, net: Net, ops: TextOps)
    requires net.ones <= 32 && Sane(ops) && NamesApart(ops)
    requires forall r | r in a :: Honest(r, ops)
    requires forall i, j | 0 <= i < j < |a| :: a[i].protocol != a[j].protocol
    requires multiset(HitMaps(a)) == multiset(HitMaps(b))
    ensures MergeAll(HitMaps(a), net, ops) == MergeAll(HitMaps(b), net, ops)
  {
    var (pa, pb) := (HitMaps(a), HitMaps(b));
    forall p ensures p in pa <==> p in pb {
      assert p in multiset(pa) <==> p in multiset(pb);
    }
    forall ip: Addr
      ensures ip in MergeAll(pa, net, ops) <==> ip in MergeAll(pb, net, ops)
      ensures ip in MergeAll(pa, net, ops) ==> MergeAll(pa, net, ops)[ip] == MergeAll(pb, net, ops)[ip]
    {
      ReportsMergeable(a, ip, ops);
      hide Honest, NormalHit, Compatible, Merged, MergeAll, InTarget, Sane, NamesApart;
      HitsPermuted(pa, pb, ip);
      NormalInAnyOrder(pa, pb, ip, ops);
      MergeAllPointwise(pa, net, ops, ip);
      MergeAllPointwise(pb, net, ops, ip);
      MergedInAnyOrder(HitsAt(pa, ip), HitsAt(pb, ip), ops);
      assert Reported(pa, ip) <==> Reported(pb, ip);
      assert ip in MergeAll(pa, net, ops) ==> HitAt(MergeAll(pa, net, ops), ip) == HitAt(MergeAll(pb, net, ops), ip);
    }
    hide MergeAll, Honest;
  }

  lemma NormalInAnyOrder(pa: seq<map<Addr, Hit>>, pb: seq<map<Addr, Hit>>, ip: Addr, ops: TextOps)
    requires multiset(pa) == multiset(pb) && Mergeable(HitsAt(pa, ip), ops)
    ensures forall i | 0 <= i < |pa| :: NormalHit(HitAt(pa[i], ip), ops)
    ensures forall i | 0 <= i < |pb| :: NormalHit(HitAt(pb[i], ip), ops)
  {
    hide NormalHit, Compatible;
    forall i | 0 <= i < |pa| ensures NormalHit(HitAt(pa[i], ip), ops) {
      assert HitsAt(pa, ip)[i] == HitAt(pa[i], ip);
    }
    forall i | 0 <= i < |pb| ensures NormalHit(HitAt(pb[i], ip), ops) {
      assert pb[i] in multiset(pa);
      var j :| 0 <= j < |pa| && pa[j] == pb[i];
    }
  }
}
