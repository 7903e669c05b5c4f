/**
 * The state behind the terminal table of tui.go, and what each locked section does to it, as functions
 * from the state before to the state after. ScanTUI holds the methods that compute them in place.
 *
 * Display columns (vendor, host name, guess, ARP interface) are one opaque text, `detail`; highlight
 * timestamps and scrolling are left out.
 */
module HostTable {
  import opened Wrappers
  import opened Sorting
  import opened PingStats

  type IP = nat

  datatype Status = Unset | Live | Dead | Arp | Discovered

  /** An open port; `http` is the HTTP status line, empty while the port has no HTTP response. */
  datatype Port = Port(number: nat, http: string, detail: string)

  datatype Host = Host(ip: IP, latency: int, status: Status, mac: string, ports: seq<Port>, detail: string)

  datatype Phase = Scanning | Enriching | Watch | Done

  datatype Table = Table(hosts: seq<Host>, stats: map<IP, Stats>, phase: Phase, rescanning: bool, autoPing: bool,
                         scanHosts: map<IP, int>, ips: seq<IP>, chunks: seq<seq<IP>>, smallNet: bool, pingChunk: nat)

  const CHUNK := 256

  // ---- rows ----

  /** indexOfLocked: the first row with that address, or -1. */
  function Index(hosts: seq<Host>, ip: IP): (i: int)
    ensures -1 <= i < |hosts|
    ensures i >= 0 ==> hosts[i].ip == ip && forall k | 0 <= k < i :: hosts[k].ip != ip
    ensures i < 0 ==> forall k | 0 <= k < |hosts| :: hosts[k].ip != ip
  {
    if hosts == [] then -1
    else if hosts[0].ip == ip then 0
    else
      var i := Index(hosts[1..], ip);
      if i < 0 then -1 else i + 1
  }

  /** The row of an address. */
  function RowOf(hosts: seq<Host>, ip: IP): (row: Option<Host>) {
    var i := Index(hosts, ip);
    if i < 0 then None else Some(hosts[i])
  }

  /** Replace the first row with the host's address, or append the host. */
  function PutRow(hosts: seq<Host>, host: Host): (r: seq<Host>) {
    var i := Index(hosts, host.ip);
    if i < 0 then hosts + [host] else hosts[i := host]
  }

  function MoveToBottom(hosts: seq<Host>, ip: IP): (r: seq<Host>) {
    var i := Index(hosts, ip);
    if i < 0 then hosts else hosts[..i] + hosts[i + 1..] + [hosts[i]]
  }

  // ---- ping statistics ----

  function StatsFor(stats: map<IP, Stats>, ip: IP): (s: Stats) {
    if ip in stats then stats[ip] else FRESH
  }

  function RecordPing(stats: map<IP, Stats>, ip: IP, ms: int): (r: map<IP, Stats>) {
    if ms < 0 then stats else stats[ip := WithPing(StatsFor(stats, ip), ms)]
  }

  function RecordMiss(stats: map<IP, Stats>, ip: IP): (r: map<IP, Stats>) {
    stats[ip := WithMiss(StatsFor(stats, ip))]
  }

  function Misses(stats: map<IP, Stats>, ip: IP): (n: nat) {
    StatsFor(stats, ip).misses
  }

  /** One successful ping for every row that has a latency. */
  function RecordAll(stats: map<IP, Stats>, hosts: seq<Host>): (r: map<IP, Stats>) {
    if hosts == [] then stats
    else
      var front, last := hosts[..|hosts| - 1], hosts[|hosts| - 1];
      RecordPing(RecordAll(stats, front), last.ip, last.latency)
  }

  // ---- scan monitor callbacks ----

  function Placeholder(ip: IP, latency: int, status: Status): (h: Host) {
    Host(ip, latency, status, "", [], "")
  }

  function UpsertPlaceholder(hosts: seq<Host>, ip: IP, ms: int): (r: seq<Host>) {
    var i := Index(hosts, ip);
    if i < 0 then hosts + [Placeholder(ip, ms, Unset)]
    else if ms >= 0 && (hosts[i].latency < 0 || ms < hosts[i].latency) then hosts[i := hosts[i].(latency := ms)]
    else hosts
  }

  function PortOpen(t: Table, ip: IP, ms: int): (r: Table)
    ensures r == t.(hosts := r.hosts, scanHosts := r.scanHosts)
  {
    var best := if ip !in t.scanHosts || ms < t.scanHosts[ip] then ms else t.scanHosts[ip];
    t.(scanHosts := t.scanHosts[ip := best], hosts := UpsertPlaceholder(t.hosts, ip, best))
  }

  function Placeholders(hosts: seq<Host>, ips: seq<IP>, scanHosts: map<IP, int>): (r: seq<Host>) {
    if ips == [] then hosts
    else
      var front, last := ips[..|ips| - 1], ips[|ips| - 1];
      UpsertPlaceholder(Placeholders(hosts, front, scanHosts), last, if last in scanHosts then scanHosts[last] else -1)
  }

  function EnrichStart(t: Table, ips: seq<IP>): (r: Table) {
    t.(phase := Enriching, hosts := Placeholders(t.hosts, ips, t.scanHosts))
  }

  /** HostReady and upsertHost: the row is replaced or appended, and a latency counts as a ping. */
  function Upsert(t: Table, host: Host): (r: Table)
    ensures r == t.(hosts := r.hosts, stats := r.stats)
  {
    t.(hosts := PutRow(t.hosts, host), stats := RecordPing(t.stats, host.ip, host.latency))
  }

  /** The first port with that number, or -1. */
  function PortIndex(ports: seq<Port>, number: nat): (i: int)
    ensures -1 <= i < |ports|
    ensures i >= 0 ==> ports[i].number == number && forall k | 0 <= k < i :: ports[k].number != number
    ensures i < 0 ==> forall k | 0 <= k < |ports| :: ports[k].number != number
  {
    if ports == [] then -1
    else if ports[0].number == number then 0
    else
      var i := PortIndex(ports[1..], number);
      if i < 0 then -1 else i + 1
  }

  /** The first port with the probed number gets the response, if it has none yet. */
  function FillPort(ports: seq<Port>, np: Port): (r: seq<Port>)
    ensures |r| == |ports|
  {
    var j := PortIndex(ports, np.number);
    if j >= 0 && ports[j].http == "" && np.http != "" then ports[j := np] else ports
  }

  function FillPorts(ports: seq<Port>, probed: seq<Port>): (r: seq<Port>)
    ensures |r| == |ports|
  {
    if probed == [] then ports else FillPort(FillPorts(ports, probed[..|probed| - 1]), probed[|probed| - 1])
  }

  function HTTPRefresh(t: Table, ip: IP, probed: seq<Port>): (r: Table)
    ensures r == t.(hosts := r.hosts, stats := r.stats)
  {
    var i := Index(t.hosts, ip);
    if i < 0 then t else t.(hosts := t.hosts[i := t.hosts[i].(ports := FillPorts(t.hosts[i].ports, probed))])
  }

  // ---- finishing the first scan ----

  /** splitIPChunks. */
  function Chunks(ips: seq<IP>, size: int): (chunks: seq<seq<IP>>)
    decreases |ips|
  {
    if size <= 0 || |ips| <= size then [ips] else [ips[..size]] + Chunks(ips[size..], size)
  }

  predicate RowLeq(a: Host, b: Host) {
    a.ip <= b.ip
  }

  function Finish(t: Table, found: seq<Host>, ips: seq<IP>): (r: Table) {
    var rows := Sort(found, RowLeq);
    t.(phase := Watch, ips := ips, chunks := Chunks(ips, CHUNK), smallNet := |ips| <= CHUNK, pingChunk := 0,
       hosts := rows, autoPing := true, stats := RecordAll(t.stats, rows))
  }

  // ---- the five-second ping tick ----

  /** The addresses the next tick pings, and the table with the chunk cursor moved on. */
  function TickSnapshot(t: Table): (r: (Table, seq<IP>)) {
    if t.rescanning then (t, [])
    else if t.smallNet then (t, t.ips)
    else if t.pingChunk >= |t.chunks| then (t, [])
    else (t.(pingChunk := (t.pingChunk + 1) % |t.chunks|), t.chunks[t.pingChunk])
  }

  /** hostWasLive. */
  predicate WasLive(h: Host) {
    h.status == Dead || h.status == Live || h.status == Arp || h.ports != [] || h.latency > 0
  }

  /** A row that replied: it has a latency, and is no longer dead. */
  function Revived(h: Host, ms: nat): (r: Host) {
    h.(latency := ms, status := if h.status != Dead then h.status else if h.ports != [] then Live else Unset)
  }

  function ApplyARP(h: Host, arp: map<IP, string>): (r: Host) {
    if h.ip in arp && arp[h.ip] != "" then h.(mac := arp[h.ip]) else h
  }

  function ApplyARPs(hosts: seq<Host>, arp: map<IP, string>): (r: seq<Host>)
    ensures |r| == |hosts| && forall i | 0 <= i < |hosts| :: r[i] == ApplyARP(hosts[i], arp)
  {
    seq(|hosts|, i requires 0 <= i < |hosts| => ApplyARP(hosts[i], arp))
  }

  /** One row of the tick: only a first miss is counted here. */
  function TickRow(h: Host, stats: map<IP, Stats>, batch: set<IP>, pings: map<IP, nat>): (r: (Host, map<IP, Stats>)) {
    if h.ip !in batch then (h, stats)
    else if h.ip in pings then (Revived(h, pings[h.ip]), RecordPing(stats, h.ip, pings[h.ip]))
    else if WasLive(h) && Misses(stats, h.ip) == 0 then (h, RecordMiss(stats, h.ip))
    else (h, stats)
  }

  function TickRows(hosts: seq<Host>, stats: map<IP, Stats>, batch: set<IP>, pings: map<IP, nat>)
    : (r: (seq<Host>, map<IP, Stats>))
    ensures |r.0| == |hosts|
  {
    if hosts == [] then ([], stats)
    else
      var front, last := hosts[..|hosts| - 1], hosts[|hosts| - 1];
      var (rows, st) := TickRows(front, stats, batch, pings);
      var (row, st') := TickRow(last, st, batch, pings);
      (rows + [row], st')
  }

  function TickApply(t: Table, batch: seq<IP>, pings: map<IP, nat>, arp: map<IP, string>): (r: Table)
    ensures r == t.(hosts := r.hosts, stats := r.stats)
  {
    var (rows, st) := TickRows(ApplyARPs(t.hosts, arp), t.stats, (set ip | ip in batch), pings);
    t.(hosts := rows, stats := st)
  }

  // ---- the one-second probe of suspects ----

  predicate Suspect(stats: map<IP, Stats>, ip: IP) {
    ip in stats && 1 <= stats[ip].misses < DEAD_AFTER
  }

  /** One suspect: a reply revives it, the tenth miss kills it and moves its row to the bottom. */
  function FastRow(hosts: seq<Host>, stats: map<IP, Stats>, ip: IP, pings: map<IP, nat>)
    : (r: (seq<Host>, map<IP, Stats>))
  {
    var i := Index(hosts, ip);
    if i < 0 then (hosts, stats)
    else if ip in pings then (hosts[i := Revived(hosts[i], pings[ip])], RecordPing(stats, ip, pings[ip]))
    else
      var st := RecordMiss(stats, ip);
      if st[ip].misses >= DEAD_AFTER && hosts[i].status != Dead then
        (MoveToBottom(hosts[i := hosts[i].(latency := -1, status := Dead)], ip), st)
      else (hosts, st)
  }

  function FastRows(hosts: seq<Host>, stats: map<IP, Stats>, suspects: seq<IP>, pings: map<IP, nat>)
    : (r: (seq<Host>, map<IP, Stats>))
  {
    if suspects == [] then (hosts, stats)
    else
      var (rows, st) := FastRows(hosts, stats, suspects[..|suspects| - 1], pings);
      FastRow(rows, st, suspects[|suspects| - 1], pings)
  }

  function FastApply(t: Table, suspects: seq<IP>, pings: map<IP, nat>): (r: Table)
    ensures r == t.(hosts := r.hosts, stats := r.stats)
  {
    var (rows, st) := FastRows(t.hosts, t.stats, suspects, pings);
    t.(hosts := rows, stats := st)
  }

  // ---- watch discovery ----

  function AddPlaceholder(t: Table, ip: IP, ms: int): (r: Table)
    ensures r == t.(hosts := r.hosts, stats := r.stats)
  {
    if Index(t.hosts, ip) >= 0 then t
    else t.(hosts := t.hosts + [Placeholder(ip, ms, if ms >= 0 then Live else Unset)],
            stats := RecordPing(t.stats, ip, ms))
  }

  /** The first row with that address that nothing is known about, or -1. */
  function BareIndex(hosts: seq<Host>, ip: IP): (i: int)
    ensures -1 <= i < |hosts|
    ensures i >= 0 ==> hosts[i].ip == ip && hosts[i].mac == "" && hosts[i].ports == []
    ensures forall k | 0 <= k < (if i < 0 then |hosts| else i) ::
              hosts[k].ip != ip || hosts[k].mac != "" || hosts[k].ports != []
  {
    if hosts == [] then -1
    else if hosts[0].ip == ip && hosts[0].mac == "" && hosts[0].ports == [] then 0
    else
      var i := BareIndex(hosts[1..], ip);
      if i < 0 then -1 else i + 1
  }

  function RemoveHost(t: Table, ip: IP): (r: Table)
    ensures r == t.(hosts := r.hosts, stats := r.stats)
  {
    var i := BareIndex(t.hosts, ip);
    if i < 0 then t else t.(hosts := t.hosts[..i] + t.hosts[i + 1..], stats := t.stats - {ip})
  }

  // ---- rescans ----

  function TriggerRescan(t: Table): (r: Table) {
    if t.rescanning || t.phase == Scanning || t.phase == Enriching then t
    else t.(rescanning := true, phase := Scanning, scanHosts := map[])
  }

  /** The last of the found hosts with that address. */
  function LastOf(found: seq<Host>, ip: IP): (h: Option<Host>)
    ensures h.Some? <==> exists k :: 0 <= k < |found| && found[k].ip == ip
    ensures h.Some? ==> h.value in found && h.value.ip == ip
  {
    if found == [] then None
    else if found[|found| - 1].ip == ip then Some(found[|found| - 1])
    else LastOf(found[..|found| - 1], ip)
  }

  /** Old rows that were found again, in old order, with their new contents. */
  function Kept(olds: seq<Host>, found: seq<Host>): (r: seq<Host>) {
    if olds == [] then []
    else
      var h := LastOf(found, olds[|olds| - 1].ip);
      Kept(olds[..|olds| - 1], found) + if h.Some? then [h.value] else []
  }

  /** Old rows that were not found again, in old order, marked dead. */
  function Dropped(olds: seq<Host>, found: seq<Host>): (r: seq<Host>) {
    if olds == [] then []
    else
      var last := olds[|olds| - 1];
      Dropped(olds[..|olds| - 1], found)
      + if LastOf(found, last.ip).Some? then [] else [last.(status := Dead, latency := -1)]
  }

  /** Found hosts without an old row, in scan order. */
  function Added(olds: seq<Host>, found: seq<Host>): (r: seq<Host>) {
    if found == [] then []
    else
      var last := found[|found| - 1];
      Added(olds, found[..|found| - 1]) + if RowOf(olds, last.ip).Some? then [] else [last]
  }

  function Reconcile(olds: seq<Host>, found: seq<Host>): (r: seq<Host>) {
    Kept(olds, found) + Dropped(olds, found) + Added(olds, found)
  }

  function ApplyRescan(t: Table, found: seq<Host>): (r: Table) {
    var rows := Reconcile(t.hosts, found);
    t.(rescanning := false, phase := Watch, hosts := rows, stats := RecordAll(t.stats, rows))
  }
}
