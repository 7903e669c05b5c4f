/**
 * The watch phase as a transition system. A ping tick and a fast probe hold the lock twice, once to
 * take a snapshot and once to apply the replies, and any other locked section may run in between:
 * so each is two steps here, and the snapshot in flight is part of the state.
 */
module WatchRuns {
  import opened Wrappers
  import opened Sorting
  import opened PingStats
  import opened HostTable
  import opened HostCells
  import opened Rescans

  /**
   * `tick` and `fast` are the addresses being pinged, and `rescans` counts the scans under way. `known`
   * are the addresses in the table when the last tick set out, and `answered` its replies as far as no
   * discovery has been started for them. `pending` holds the discoveries under way, each with the
   * latency it was started with, and `told` the hosts the running scan has reported.
   */
  datatype Sys = Sys(t: Table, tick: Option<seq<IP>>, fast: Option<seq<IP>>, rescans: nat,
                     known: set<IP>, answered: map<IP, nat>, pending: map<IP, int>, told: map<IP, Host>)

  datatype Action =
    | TickStart
    | TickEnd(pings: map<IP, nat>, arp: map<IP, string>)
    | FastStart(suspects: seq<IP>)
    | FastEnd(pings: map<IP, nat>)
    | Toggle
      // discovery of a host that answered a tick, or stands in the ARP cache (ms < 0): a placeholder,
      // then the host or nothing
    | Noticed(ip: IP, ms: int)
    | Resolved(host: Host)
    | Vanished(ip: IP)
      // the second HTTP pass, which may report at any time
    | Probed(ip: IP, ports: seq<Port>)
      // a rescan and the callbacks of its scan
    | RescanStart
    | Opened(ip: IP, ms: int)
    | Enriched(ips: seq<IP>)
    | Ready(host: Host)
    | RescanEnd(found: seq<Host>)

  /**
   * One loop runs the ticks and one the fast probes, so there is at most one of each in flight. The
   * suspects are taken from a map, in any order.
   *
   * Between two ticks the loop starts a discovery for each reply of a host it did not know; a host that
   * is being discovered is not noticed again. A discovery that was started with a latency keeps it, any
   * other pings the host. A scan reports each host once, none dead, and returns what it has reported.
   */
  ghost predicate Enabled(s: Sys, a: Action) {
    match a
    case TickStart => s.tick.None?
    case TickEnd(_, _) => s.tick.Some?
    case FastStart(suspects) =>
      && s.fast.None? && Distinct(suspects)
      && if s.t.rescanning || !s.t.autoPing then suspects == []
         else forall ip :: ip in suspects <==> Suspect(s.t.stats, ip)
    case FastEnd(_) => s.fast.Some?
    case Noticed(ip, ms) =>
      && s.tick.None? && ip !in s.known && ip !in s.pending
      && (ms >= 0 ==> ip in s.answered && s.answered[ip] == ms)
    case Resolved(host) =>
      && host.status != Dead && host.ip in s.pending
      && (s.pending[host.ip] >= 0 ==> host.latency == s.pending[host.ip])
    case Vanished(ip) => ip in s.pending
    case Opened(_, _) => s.rescans > 0
    case Enriched(_) => s.rescans > 0
    case Ready(host) => s.rescans > 0 && host.status != Dead && host.ip !in s.told
    case RescanEnd(found) =>
      && s.rescans > 0 && DistinctRows(found) && (forall h | h in found :: h.status != Dead)
      && (forall h | h in found :: h.ip in s.told && s.told[h.ip] == h)
      && (forall ip | ip in s.told :: RowOf(found, ip).Some?)
    case _ => true
  }

  function Flight(batch: seq<IP>): (r: Option<seq<IP>>) {
    if batch == [] then None else Some(batch)
  }

  function Addresses(hosts: seq<Host>): (ips: set<IP>) {
    set h | h in hosts :: h.ip
  }

  ghost function Apply(s: Sys, a: Action): (r: Sys)
    requires Enabled(s, a)
  {
    match a
    case TickStart =>
      var (t, batch) := TickSnapshot(s.t);
      s.(t := t, tick := Flight(batch), known := Addresses(s.t.hosts), answered := map[])
    case TickEnd(pings, arp) => s.(t := TickApply(s.t, s.tick.value, pings, arp), tick := None, answered := pings)
    case FastStart(suspects) => s.(fast := Flight(suspects))
    case FastEnd(pings) => s.(t := FastApply(s.t, s.fast.value, pings), fast := None)
    case Toggle => s.(t := s.t.(autoPing := !s.t.autoPing))
    case Noticed(ip, ms) =>
      s.(t := AddPlaceholder(s.t, ip, ms), pending := s.pending[ip := ms],
         answered := if ms >= 0 then s.answered - {ip} else s.answered)
    case Resolved(host) => s.(t := Upsert(s.t, host), pending := s.pending - {host.ip})
    case Vanished(ip) => s.(t := RemoveHost(s.t, ip), pending := s.pending - {ip})
    case Probed(ip, ports) => s.(t := HTTPRefresh(s.t, ip, ports))
    case RescanStart =>
      var t := TriggerRescan(s.t);
      if t.rescanning && !s.t.rescanning then s.(t := t, rescans := s.rescans + 1, told := map[]) else s.(t := t)
    case Opened(ip, ms) => s.(t := PortOpen(s.t, ip, ms))
    case Enriched(ips) => s.(t := EnrichStart(s.t, ips))
    case Ready(host) => s.(t := Upsert(s.t, host), told := s.told[host.ip := host])
    case RescanEnd(found) => s.(t := ApplyRescan(s.t, found), rescans := s.rescans - 1, told := map[])
  }

  /** Every action of the run is enabled when its turn comes. */
  ghost predicate Legal(s: Sys, run: seq<Action>)
    decreases |run|
  {
    run == [] || (Enabled(s, run[0]) && Legal(Apply(s, run[0]), run[1..]))
  }

  ghost function Run(s: Sys, run: seq<Action>): (r: Sys)
    requires Legal(s, run)
    decreases |run|
  {
    if run == [] then s else Run(Apply(s, run[0]), run[1..])
  }

  lemma {:induction false} RunConcat(s: Sys, first: seq<Action>, second: seq<Action>)
    requires Legal(s, first) && Legal(Run(s, first), second)
    ensures Legal(s, first + second) && Run(s, first + second) == Run(Run(s, first), second)
    decreases |first|
  {
    hide Apply, Enabled;
    if first == [] {
      assert first + second == second;
    } else {
      RunConcat(Apply(s, first[0]), first[1..], second);
      assert (first + second)[1..] == first[1..] + second;
    }
  }

  lemma RunOfTwo(s: Sys, a: Action, b: Action)
    requires Enabled(s, a) && Enabled(Apply(s, a), b)
    ensures Legal(s, [a, b]) && Run(s, [a, b]) == Apply(Apply(s, a), b)
  {
    hide Apply, Enabled;
    assert [a, b][1..] == [b] && [b][1..] == [];
    assert Legal(Apply(Apply(s, a), b), []);
    assert Legal(Apply(s, a), [b]);
    assert Run(Apply(s, a), [b]) == Apply(Apply(s, a), b);
  }

  // ---- one step, seen from one address ----

  function BestLatency(t: Table, ip: IP, ms: int): (best: int) {
    if ip !in t.scanHosts || ms < t.scanHosts[ip] then ms else t.scanHosts[ip]
  }

  ghost function StepCell(s: Sys, a: Action, c: Cell, ip: IP): (r: Cell)
    requires Enabled(s, a)
  {
    match a
    case TickEnd(pings, arp) => TickCell(c, ip, ip in s.tick.value, pings, arp)
    case FastEnd(pings) => if ip in s.fast.value then FastCell(c, ip, pings) else c
    case Noticed(i, ms) => if i == ip then DiscoverCell(c, ip, ms) else c
    case Resolved(host) => if host.ip == ip then PutCell(c, host) else c
    case Vanished(i) => if i == ip then RemoveCell(c) else c
    case Probed(i, ports) => if i == ip then HTTPCell(c, ports) else c
    case Opened(i, ms) => if i == ip then PlaceCell(c, ip, BestLatency(s.t, ip, ms)) else c
    case Enriched(ips) =>
      if ip in ips then PlaceCell(c, ip, if ip in s.t.scanHosts then s.t.scanHosts[ip] else -1) else c
    case Ready(host) => if host.ip == ip then PutCell(c, host) else c
    case RescanEnd(found) => RescanCell(c, RowOf(found, ip))
    case _ => c
  }

  /** Rows stay distinct, and a step acts on every address by itself. */
  lemma StepActs(s: Sys, a: Action, ip: IP)
    requires Enabled(s, a) && DistinctRows(s.t.hosts) && (s.fast.Some? ==> Distinct(s.fast.value))
    ensures DistinctRows(Apply(s, a).t.hosts)
    ensures At(Apply(s, a).t, ip) == StepCell(s, a, At(s.t, ip), ip)
  {
    hide DistinctRows, RowOf, TickApply, FastApply, AddPlaceholder, Upsert, RemoveHost, HTTPRefresh, ApplyRescan;
    hide TickCell, FastCell, DiscoverCell, PutCell, RemoveCell, HTTPCell, PlaceCell, RescanCell, BestLatency, Addresses;
    hide At, PortOpen, EnrichStart;
    match a
    case TickEnd(pings, arp) => TickActs(s.t, s.tick.value, pings, arp, ip);
    case FastEnd(pings) => FastActs(s.t, s.fast.value, pings, ip);
    case Noticed(i, ms) => DiscoverActs(s.t, i, ms, ip);
    case Resolved(host) => UpsertActs(s.t, host, ip);
    case Vanished(i) => RemoveActs(s.t, i, ip);
    case Probed(i, ports) => HTTPActs(s.t, i, ports, ip);
    case Opened(i, ms) => OpenedActs(s.t, i, ms, ip);
    case Enriched(ips) => EnrichedActs(s.t, ips, ip);
    case Ready(host) => UpsertActs(s.t, host, ip);
    case RescanEnd(found) => RescanActs(s.t, found, ip);
    case _ => SameRows(s.t, Apply(s, a).t, ip);
  }

  lemma SameRows(t: Table, r: Table, ip: IP)
    requires r.hosts == t.hosts && r.stats == t.stats
    ensures At(r, ip) == At(t, ip)
  {
  }

  lemma OpenedActs(t: Table, i: IP, ms: int, ip: IP)
    requires DistinctRows(t.hosts)
    ensures DistinctRows(PortOpen(t, i, ms).hosts)
    ensures At(PortOpen(t, i, ms), ip)
         == if i == ip then PlaceCell(At(t, ip), ip, BestLatency(t, ip, ms)) else At(t, ip)
  {
    PlaceActs(t.hosts, t.stats, i, BestLatency(t, i, ms), ip);
    hide DistinctRows, RowOf, UpsertPlaceholder, PlaceCell;
  }

  lemma EnrichedActs(t: Table, ips: seq<IP>, ip: IP)
    requires DistinctRows(t.hosts)
    ensures DistinctRows(EnrichStart(t, ips).hosts)
    ensures At(EnrichStart(t, ips), ip)
         == if ip in ips then PlaceCell(At(t, ip), ip, if ip in t.scanHosts then t.scanHosts[ip] else -1) else At(t, ip)
  {
    PlacesAct(t.hosts, t.stats, ips, t.scanHosts, ip);
    hide DistinctRows, RowOf, Placeholders, PlaceCell;
  }

  // ---- what every step keeps ----

  /** Whether an address is in the fast probe's snapshot. */
  predicate Probing(s: Sys, ip: IP) {
    s.fast.Some? && ip in s.fast.value
  }

  /** Statistics only for rows; at most ten misses, and at most nine while a fast probe is out. */
  predicate CellOk(c: Cell, probing: bool) {
    && (c.stats.Some? ==> c.row.Some?)
    && CellMisses(c.stats) <= DEAD_AFTER
    && (probing ==> CellMisses(c.stats) < DEAD_AFTER)
  }

  predicate DeadIsMute(c: Cell) {
    c.row.Some? && c.row.value.status == Dead ==> c.row.value.latency == -1
  }

  /** The phase, the rescans under way and the sweep. */
  predicate FrameOk(s: Sys) {
    && s.rescans == (if s.t.rescanning then 1 else 0)
    && (if s.t.rescanning then s.t.phase == Scanning || s.t.phase == Enriching else s.t.phase == Watch)
    && s.t.chunks == Chunks(s.t.ips, CHUNK) && s.t.pingChunk < |s.t.chunks|
    && (s.t.smallNet <==> |s.t.ips| <= CHUNK)
  }

  ghost predicate Inv(s: Sys) {
    && FrameOk(s)
    && DistinctRows(s.t.hosts)
    && (s.fast.Some? ==> Distinct(s.fast.value))
    && (forall ip :: CellOk(At(s.t, ip), Probing(s, ip)))
    && (s.t.phase == Watch ==> forall ip :: DeadIsMute(At(s.t, ip)))
  }

  lemma StepKeepsFrame(s: Sys, a: Action)
    requires Enabled(s, a) && FrameOk(s)
    ensures FrameOk(Apply(s, a))
    ensures Apply(s, a).t.ips == s.t.ips
  {
    hide TickApply, FastApply, AddPlaceholder, Upsert, RemoveHost, HTTPRefresh, PortOpen, RowOf, DistinctRows, Distinct;
    hide Chunks, Placeholders, Reconcile, RecordAll, Addresses, Suspect;
  }

  lemma StepKeepsCell(s: Sys, a: Action, ip: IP)
    requires Enabled(s, a) && FrameOk(s)
    requires CellOk(At(s.t, ip), Probing(s, ip))
    ensures CellOk(StepCell(s, a, At(s.t, ip), ip), Probing(Apply(s, a), ip))
  {
    hide TickApply, FastApply, AddPlaceholder, Upsert, RemoveHost, HTTPRefresh, ApplyRescan, RowOf;
    hide PortOpen, EnrichStart, FrameOk, DistinctRows, Distinct, FillPorts;
  }

  lemma StepKeepsDeadMute(s: Sys, a: Action, ip: IP)
    requires Enabled(s, a) && FrameOk(s)
    requires s.t.phase == Watch ==> DeadIsMute(At(s.t, ip))
    ensures Apply(s, a).t.phase == Watch ==> DeadIsMute(StepCell(s, a, At(s.t, ip), ip))
  {
    hide TickRows, FastRows, ApplyARPs, PutRow, RecordPing, Index, BareIndex, UpsertPlaceholder, Placeholders;
    hide Reconcile, RecordAll, DistinctRows, Distinct, FillPorts, Chunks;
  }

  lemma StepKeepsInv(s: Sys, a: Action)
    requires Enabled(s, a) && Inv(s)
    ensures Inv(Apply(s, a))
  {
    var r := Apply(s, a);
    StepKeepsFrame(s, a);
    StepActs(s, a, 0);
    forall ip ensures CellOk(At(r.t, ip), Probing(r, ip)) && (r.t.phase == Watch ==> DeadIsMute(At(r.t, ip))) {
      assert CellOk(At(s.t, ip), Probing(s, ip));
      StepActs(s, a, ip);
      StepKeepsCell(s, a, ip);
      StepKeepsDeadMute(s, a, ip);
    }
    hide At, CellOk, DeadIsMute, FrameOk, DistinctRows, StepCell;
    assert r.fast.Some? ==> Distinct(r.fast.value);
  }

  /**
   * In every interleaving: rows keep distinct addresses, statistics belong to rows, no host has more
   * than ten misses, at most one rescan is under way, and in the watch phase a dead row has no latency.
   */
  lemma {:induction false} RunsKeepInv(s: Sys, run: seq<Action>)
    requires Legal(s, run) && Inv(s)
    ensures Inv(Run(s, run))
    decreases |run|
  {
    if run != [] {
      hide Inv;
      StepKeepsInv(s, run[0]);
      RunsKeepInv(Apply(s, run[0]), run[1..]);
    }
  }
}
