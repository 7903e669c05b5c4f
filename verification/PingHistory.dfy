/** What is recorded of a host, from the first scan on and over every run: its statistics summarise it. */
module PingHistory {
  import opened Wrappers
  import opened PingStats
  import opened HostTable
  import opened HostCells
  import opened Rescans
  import opened WatchRuns
  import opened FirstScan

  function Reply(ms: int): (events: seq<Event>) {
    if ms < 0 then [] else [Ping(ms)]
  }

  /** The replies and misses of a host that one action records. A tick records a first miss only. */
  function Events(s: Sys, a: Action, ip: IP): (events: seq<Event>)
    ensures |events| <= 1
  {
    var row := RowOf(s.t.hosts, ip);
    match a
    case TickEnd(pings, _) =>
      if row.None? || s.tick.None? || ip !in s.tick.value then []
      else if ip in pings then [Ping(pings[ip])]
      else if Seen(row.value) && Misses(s.t.stats, ip) == 0 then [Miss]
      else []
    case FastEnd(pings) =>
      if row.None? || !Probing(s, ip) then [] else if ip in pings then [Ping(pings[ip])] else [Miss]
    case Noticed(i, ms) => if i == ip && row.None? then Reply(ms) else []
    case Resolved(host) => if host.ip == ip then Reply(host.latency) else []
    case Ready(host) => if host.ip == ip then Reply(host.latency) else []
    case RescanEnd(found) => if RowOf(found, ip).Some? then Reply(RowOf(found, ip).value.latency) else []
    case _ => []
  }

  /** Whether the action drops the host, and its history with it. */
  predicate Forgets(s: Sys, a: Action, ip: IP) {
    a == Vanished(ip) && RowOf(s.t.hosts, ip).Some?
    && RowOf(s.t.hosts, ip).value.mac == "" && RowOf(s.t.hosts, ip).value.ports == []
  }

  /** What has been recorded of a host after a run, given what had been before it. */
  ghost function HistoryAfter(s: Sys, run: seq<Action>, ip: IP, before: seq<Event>): (h: seq<Event>)
    requires Legal(s, run)
    decreases |run|
  {
    if run == [] then before
    else
      HistoryAfter(Apply(s, run[0]), run[1..], ip,
                   if Forgets(s, run[0], ip) then [] else before + Events(s, run[0], ip))
  }

  function StatsOf(s: Option<Stats>): (r: Stats) {
    if s.Some? then s.value else FRESH
  }

  lemma ReplySummarised(s: Option<Stats>, ms: int, history: seq<Event>)
    requires Summarises(StatsOf(s), history)
    ensures Summarises(StatsOf(Pinged(s, ms)), history + Reply(ms))
  {
    hide Summarises;
    if ms >= 0 {
      PingSummarised(StatsOf(s), history, ms);
    } else {
      assert history + [] == history;
    }
  }

  lemma StepSummarised(s: Sys, a: Action, ip: IP, before: seq<Event>)
    requires Inv(s) && Enabled(s, a) && Summarises(StatsFor(s.t.stats, ip), before)
    ensures Summarises(StatsFor(Apply(s, a).t.stats, ip), if Forgets(s, a, ip) then [] else before + Events(s, a, ip))
  {
    StepActs(s, a, ip);
    StartSummarised();
    var c := At(s.t, ip);
    assert c.row.None? ==> c.stats.None? by {
      assert CellOk(c, Probing(s, ip));
    }
    assert StatsFor(s.t.stats, ip) == StatsOf(c.stats);
    assert StatsFor(Apply(s, a).t.stats, ip) == StatsOf(At(Apply(s, a).t, ip).stats);
    assert before + [] == before;
    hide Summarises, Inv, Apply, DistinctRows, RowOf, StatsFor, WithPing, WithMiss;
    assert c.row == RowOf(s.t.hosts, ip) && Misses(s.t.stats, ip) == CellMisses(c.stats) by {
      CellFields(s, ip);
    }
    hide At;
    forall ms: int ensures Summarises(StatsOf(Pinged(c.stats, ms)), before + Reply(ms)) {
      ReplySummarised(c.stats, ms, before);
    }
    MissSummarised(StatsOf(c.stats), before);
    StepEvents(s, a, ip, c, before);
  }

  lemma CellFields(s: Sys, ip: IP)
    ensures At(s.t, ip).row == RowOf(s.t.hosts, ip) && Misses(s.t.stats, ip) == CellMisses(At(s.t, ip).stats)
  {
    hide RowOf;
  }

  lemma StepEvents(s: Sys, a: Action, ip: IP, c: Cell, before: seq<Event>)
    requires Enabled(s, a) && c.row == RowOf(s.t.hosts, ip) && CellMisses(c.stats) == Misses(s.t.stats, ip)
    requires c.row.None? ==> c.stats.None?
    ensures !Forgets(s, a, ip) ==>
              (Events(s, a, ip) == [] && StepCell(s, a, c, ip).stats == c.stats)
              || (Events(s, a, ip) == [Miss] && StepCell(s, a, c, ip).stats == Missed(c.stats))
              || (exists ms: nat :: Events(s, a, ip) == Reply(ms) && StepCell(s, a, c, ip).stats == Pinged(c.stats, ms))
    ensures Forgets(s, a, ip) ==> StepCell(s, a, c, ip).stats.None?
  {
    hide DistinctRows, RowOf, Misses, FillPorts;
    match a
    case TickEnd(pings, arp) =>
      if c.row.Some? && ip in s.tick.value && ip in pings {
        assert Events(s, a, ip) == Reply(pings[ip]);
      }
    case FastEnd(pings) =>
      if c.row.Some? && Probing(s, ip) && ip in pings {
        assert Events(s, a, ip) == Reply(pings[ip]);
      }
    case _ =>
  }

  /**
   * In every run the statistics of a host summarise what was recorded of it: the last six latencies,
   * the least and the greatest of all, and the misses since the last recorded reply.
   */
  lemma {:induction false} StatisticsAreHistory(s: Sys, run: seq<Action>, ip: IP, before: seq<Event>)
    requires Inv(s) && Legal(s, run) && Summarises(StatsFor(s.t.stats, ip), before)
    ensures Summarises(StatsFor(Run(s, run).t.stats, ip), HistoryAfter(s, run, ip, before))
    decreases |run|
  {
    if run != [] {
      StepKeepsInv(s, run[0]);
      StepSummarised(s, run[0], ip, before);
      hide Inv, Summarises, Apply, Enabled, Events, Forgets, StatsFor;
      StatisticsAreHistory(Apply(s, run[0]), run[1..], ip,
                           if Forgets(s, run[0], ip) then [] else before + Events(s, run[0], ip));
    }
  }

  // ---- the first scan ----

  function Reported(a: Action, ip: IP): (events: seq<Event>) {
    if a.Ready? && a.host.ip == ip then Reply(a.host.latency) else []
  }

  /** What the first scan records of a host before it enters the finished table. */
  function ScanHistory(calls: seq<Action>, ip: IP): (h: seq<Event>) {
    if calls == [] then [] else ScanHistory(calls[..|calls| - 1], ip) + Reported(calls[|calls| - 1], ip)
  }

  lemma CallbackSummarised(t: Table, a: Action, ip: IP, h: seq<Event>)
    requires Summarises(StatsFor(t.stats, ip), h)
    ensures Summarises(StatsFor(Callback(t, a).stats, ip), h + Reported(a, ip))
  {
    hide Summarises, UpsertPlaceholder, Placeholders, PutRow;
    assert h + [] == h;
    if a.Ready? && a.host.ip == ip && a.host.latency >= 0 {
      PingSummarised(StatsFor(t.stats, ip), h, a.host.latency);
      hide WithPing;
    }
  }

  lemma {:induction false} CallbacksSummarised(calls: seq<Action>, ip: IP)
    ensures Summarises(StatsFor(Callbacks(calls).stats, ip), ScanHistory(calls, ip))
  {
    if calls == [] {
      StartSummarised();
    } else {
      var front, last := calls[..|calls| - 1], calls[|calls| - 1];
      CallbacksSummarised(front, ip);
      hide Summarises, Callback, Reported, StatsFor;
      CallbackSummarised(Callbacks(front), last, ip, ScanHistory(front, ip));
    }
  }

  /** What the first scan records of a host: when it is ready, and when the table is filled. */
  function StartHistory(calls: seq<Action>, found: seq<Host>, ip: IP): (h: seq<Event>) {
    var row := RowOf(found, ip);
    ScanHistory(calls, ip) + if row.Some? then Reply(row.value.latency) else []
  }

  lemma StartStatistics(calls: seq<Action>, found: seq<Host>, ips: seq<IP>, ip: IP)
    requires ScanReports(calls, found)
    ensures Summarises(StatsFor(Start(calls, found, ips).t.stats, ip), StartHistory(calls, found, ip))
  {
    var t := Callbacks(calls);
    var s := Start(calls, found, ips);
    FinishActs(t, found, ips, ip);
    CallbacksSummarised(calls, ip);
    StartIsFinish(calls, found, ips);
    hide Summarises, Start, Callbacks, Finish, RowOf, DistinctRows, ScanHistory, Callback;
    var c := if ip in t.stats then Some(t.stats[ip]) else None;
    var h := ScanHistory(calls, ip);
    assert h + [] == h;
    if RowOf(found, ip).Some? {
      ReplySummarised(c, RowOf(found, ip).value.latency, h);
    }
    assert StatsFor(s.t.stats, ip) == StatsOf(At(s.t, ip).stats);
  }

  /** From an empty table on: the statistics of a host summarise what was recorded of it. */
  lemma AllStatisticsAreHistory(calls: seq<Action>, found: seq<Host>, ips: seq<IP>, run: seq<Action>, ip: IP)
    requires ScanReports(calls, found) && Legal(Start(calls, found, ips), run)
    ensures Summarises(StatsFor(Run(Start(calls, found, ips), run).t.stats, ip),
                       HistoryAfter(Start(calls, found, ips), run, ip, StartHistory(calls, found, ip)))
  {
    hide Summarises, Inv, Start, Run, Legal, HistoryAfter, StartHistory, ScanReports, StatsFor;
    FinishEstablishesInv(calls, found, ips);
    StartStatistics(calls, found, ips, ip);
    StatisticsAreHistory(Start(calls, found, ips), run, ip, StartHistory(calls, found, ip));
  }

  lemma StartIsFinish(calls: seq<Action>, found: seq<Host>, ips: seq<IP>)
    ensures Start(calls, found, ips).t == Finish(Callbacks(calls), found, ips)
  {
    hide Finish, Callbacks;
  }
}
