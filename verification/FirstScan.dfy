/** The first scan, which fills an empty table, and what holds in every run after it has finished. */
module FirstScan {
  import opened Wrappers
  import opened Sorting
  import opened Sweeps
  import opened PingStats
  import opened HostTable
  import opened HostCells
  import opened Rescans
  import opened WatchRuns

  const EMPTY := Table([], map[], Scanning, false, false, map[], [], [], false, 0)

  /** The callbacks of a scan: ports found open, the list of hosts, and each host once it is known. */
  function Callback(t: Table, a: Action): (r: Table) {
    match a
    case Opened(ip, ms) => PortOpen(t, ip, ms)
    case Enriched(ips) => EnrichStart(t, ips)
    case Ready(host) => Upsert(t, host)
    case _ => t
  }

  function Callbacks(calls: seq<Action>): (t: Table) {
    if calls == [] then EMPTY else Callback(Callbacks(calls[..|calls| - 1]), calls[|calls| - 1])
  }

  /** What scanNetwork reports and returns: each host once, none dead, and the same hosts. */
  ghost predicate ScanReports(calls: seq<Action>, found: seq<Host>) {
    && DistinctRows(found)
    && (forall h | h in found :: h.status != Dead && Ready(h) in calls)
    && (forall a | a in calls && a.Ready? :: a.host in found)
    && (forall i, j | 0 <= i < j < |calls| && calls[i].Ready? && calls[j].Ready? ::
          calls[i].host.ip != calls[j].host.ip)
  }

  /** The system when the watch loops start. */
  function Start(calls: seq<Action>, found: seq<Host>, ips: seq<IP>): (s: Sys) {
    Sys(Finish(Callbacks(calls), found, ips), None, None, 0, {}, map[], map[], map[])
  }

  ghost predicate OnlyPings(t: Table, found: seq<Host>) {
    && !t.rescanning
    && forall ip | ip in t.stats :: RowOf(found, ip).Some? && t.stats[ip].misses == 0
  }

  lemma CallbackOnlyPings(t: Table, a: Action, found: seq<Host>)
    requires OnlyPings(t, found) && (a.Ready? ==> RowOf(found, a.host.ip).Some?)
    ensures OnlyPings(Callback(t, a), found)
  {
    hide RowOf, UpsertPlaceholder, Placeholders, PutRow;
  }

  /** Before the first scan has finished, statistics come from its replies alone. */
  lemma {:induction false} CallbacksOnlyPing(calls: seq<Action>, found: seq<Host>)
    requires forall a | a in calls && a.Ready? :: RowOf(found, a.host.ip).Some?
    ensures OnlyPings(Callbacks(calls), found)
  {
    if calls != [] {
      var front, last := calls[..|calls| - 1], calls[|calls| - 1];
      assert last in calls && forall a | a in front :: a in calls;
      CallbacksOnlyPing(front, found);
      hide RowOf, DistinctRows, Callback, OnlyPings;
      CallbackOnlyPings(Callbacks(front), last, found);
    }
  }

  /** When the first scan finishes, the invariant of the watch phase holds. */
  lemma FinishEstablishesInv(calls: seq<Action>, found: seq<Host>, ips: seq<IP>)
    requires ScanReports(calls, found)
    ensures Inv(Start(calls, found, ips))
  {
    var before := Callbacks(calls);
    var s := Start(calls, found, ips);
    forall a | a in calls && a.Ready? ensures RowOf(found, a.host.ip).Some? {
      RowOfMember(found, a.host);
    }
    CallbacksOnlyPing(calls, found);
    ChunksPartition(ips, CHUNK);
    FinishActs(before, found, ips, 0);
    forall ip ensures CellOk(At(s.t, ip), Probing(s, ip)) && DeadIsMute(At(s.t, ip)) {
      FinishActs(before, found, ips, ip);
      assert RowOf(found, ip).Some? ==> RowOf(found, ip).value in found;
    }
    hide At, CellOk, DeadIsMute, Callbacks, Sort, RecordAll, Chunks, DistinctRows;
  }

  /**
   * Whatever the first scan reported and however the steps after it interleave: no two rows share an
   * address, statistics belong to rows, nobody has more than ten misses, at most one rescan runs and
   * only while the phase says so, and in the watch phase a dead row shows no latency.
   */
  lemma WatchIsSafe(calls: seq<Action>, found: seq<Host>, ips: seq<IP>, run: seq<Action>)
    requires ScanReports(calls, found) && Legal(Start(calls, found, ips), run)
    ensures var s := Run(Start(calls, found, ips), run);
            && DistinctRows(s.t.hosts)
            && (forall ip | ip in s.t.stats :: Index(s.t.hosts, ip) >= 0 && s.t.stats[ip].misses <= DEAD_AFTER)
            && s.rescans <= 1 && (s.rescans == 1 <==> s.t.rescanning)
            && (s.t.rescanning <==> s.t.phase == Scanning || s.t.phase == Enriching)
            && (s.t.phase == Watch ==> forall h | h in s.t.hosts && h.status == Dead :: h.latency == -1)
  {
    FinishEstablishesInv(calls, found, ips);
    var s := Run(Start(calls, found, ips), run);
    assert Inv(s) by {
      hide Inv, Legal, Run;
      RunsKeepInv(Start(calls, found, ips), run);
    }
    hide Run, Legal, Start;
    forall ip | ip in s.t.stats ensures Index(s.t.hosts, ip) >= 0 && s.t.stats[ip].misses <= DEAD_AFTER {
      assert CellOk(At(s.t, ip), Probing(s, ip));
    }
    if s.t.phase == Watch {
      forall h | h in s.t.hosts && h.status == Dead ensures h.latency == -1 {
        assert DeadIsMute(At(s.t, h.ip));
        RowOfMember(s.t.hosts, h);
      }
    }
  }

  lemma RowOfMember(hosts: seq<Host>, h: Host)
    requires DistinctRows(hosts) && h in hosts
    ensures RowOf(hosts, h.ip) == Some(h)
  {
  }

  // ---- latencies during a scan ----

  /** The latencies with which the open ports of one host answered. */
  function Reports(calls: seq<Action>, ip: IP): (ms: seq<int>) {
    if calls == [] then []
    else
      var last := calls[|calls| - 1];
      Reports(calls[..|calls| - 1], ip) + if last.Opened? && last.ip == ip then [last.ms] else []
  }

  /** The scan remembers the best of the reported latencies, and the host's row shows it. */
  ghost predicate ShowsBest(t: Table, reports: seq<int>, ip: IP) {
    var row := RowOf(t.hosts, ip);
    && DistinctRows(t.hosts)
    && (ip in t.scanHosts <==> reports != [])
    && (forall m | m in reports :: 0 <= m)
    && if reports == [] then row.Some? ==> row.value.latency < 0
       else && t.scanHosts[ip] in reports && (forall m | m in reports :: t.scanHosts[ip] <= m)
            && row.Some? && row.value.latency == t.scanHosts[ip]
  }

  lemma OpenedShowsBest(t: Table, i: IP, ms: int, reports: seq<int>, ip: IP)
    requires ShowsBest(t, reports, ip) && ms >= 0
    ensures ShowsBest(PortOpen(t, i, ms), if i == ip then reports + [ms] else reports, ip)
  {
    hide RowOf, DistinctRows, UpsertPlaceholder;
    PlaceActs(t.hosts, t.stats, i, BestLatency(t, i, ms), ip);
    assert RowOf(PortOpen(t, i, ms).hosts, ip) == CellOf(PortOpen(t, i, ms).hosts, t.stats, ip).row;
    assert ms in reports + [ms] && forall m | m in reports :: m in reports + [ms];
  }

  lemma CallbackShowsBest(t: Table, a: Action, reports: seq<int>, ip: IP)
    requires ShowsBest(t, reports, ip) && (a.Opened? ==> a.ms >= 0) && (a.Ready? ==> a.host.ip != ip)
    ensures ShowsBest(Callback(t, a), reports + if a.Opened? && a.ip == ip then [a.ms] else [], ip)
  {
    hide RowOf, DistinctRows, UpsertPlaceholder, Placeholders, PutRow, RecordPing, RecordAll, Misses, StatsFor;
    assert reports + [] == reports;
    match a
    case Opened(i, ms) =>
      OpenedShowsBest(t, i, ms, reports, ip);
    case Enriched(ips) =>
      PlacesAct(t.hosts, t.stats, ips, t.scanHosts, ip);
      assert RowOf(Callback(t, a).hosts, ip) == CellOf(Callback(t, a).hosts, t.stats, ip).row;
    case Ready(host) =>
      UpsertActs(t, host, ip);
      assert RowOf(Callback(t, a).hosts, ip) == At(Callback(t, a), ip).row;
    case _ =>
  }

  /** Until the host is ready, its row shows the least latency of its open ports so far. */
  lemma {:induction false} ScanShowsBestLatency(calls: seq<Action>, ip: IP)
    requires forall a | a in calls :: (a.Opened? ==> a.ms >= 0) && (a.Ready? ==> a.host.ip != ip)
    ensures ShowsBest(Callbacks(calls), Reports(calls, ip), ip)
  {
    if calls != [] {
      var front, last := calls[..|calls| - 1], calls[|calls| - 1];
      assert last in calls && forall a | a in front :: a in calls;
      ScanShowsBestLatency(front, ip);
      hide ShowsBest, Callback;
      CallbackShowsBest(Callbacks(front), last, Reports(front, ip), ip);
    }
  }
}
