/**
 * Runs from an empty table that end where the promises of the watch phase fail: a host that has ten
 * misses and is not dead, a dead row that shows a latency, a row that is never counted as missing.
 */
module Witnesses {
  import opened Wrappers
  import opened Sorting
  import opened PingStats
  import opened HostTable
  import opened HostCells
  import opened Rescans
  import opened WatchRuns
  import opened FirstScan
  import opened Escalation

  /** A scan of one address that reports one host. */
  function OneHost(h: Host): (s: Sys) {
    Start([Ready(h)], [h], [h.ip])
  }

  /** Nothing is under way, the host has k misses, and no other host has statistics. */
  ghost predicate Resting(s: Sys, ip: IP, k: nat) {
    && Inv(s) && s.t.autoPing && !s.t.rescanning && s.tick.None? && s.fast.None?
    && s.t.ips == [ip]
    && At(s.t, ip).row.Some? && CellMisses(At(s.t, ip).stats) == k
    && (At(s.t, ip).row.value.status == Dead <==> k == DEAD_AFTER)
    && forall other | other != ip :: other !in s.t.stats
  }

  lemma OnlyRow(h: Host, ip: IP)
    ensures RowOf([h], ip) == (if ip == h.ip then Some(h) else None) && DistinctRows([h])
  {
    assert Index([h], ip) == if ip == h.ip then 0 else -1;
  }

  lemma OneHostStarts(h: Host)
    requires h.status != Dead
    ensures ScanReports([Ready(h)], [h]) && Resting(OneHost(h), h.ip, 0) && At(OneHost(h).t, h.ip).row == Some(h)
  {
    var calls := [Ready(h)];
    assert calls[0] in calls;
    OnlyRow(h, h.ip);
    FinishEstablishesInv(calls, [h], [h.ip]);
    FinishActs(Callbacks(calls), [h], [h.ip], h.ip);
    CallbacksOnlyPing(calls, [h]);
    var s := OneHost(h);
    forall other | other != h.ip ensures other !in s.t.stats {
      OnlyRow(h, other);
      FinishActs(Callbacks(calls), [h], [h.ip], other);
      assert CellOk(At(s.t, other), Probing(s, other));
    }
    hide Callbacks, Sort, RecordAll, Chunks, DistinctRows, Inv;
  }

  /** A tick without a reply. */
  lemma MissedTick(s: Sys, ip: IP)
    requires Resting(s, ip, 0) && Seen(At(s.t, ip).row.value)
    ensures Legal(s, [TickStart, TickEnd(map[], map[])]) && Resting(Run(s, [TickStart, TickEnd(map[], map[])]), ip, 1)
  {
    var mid := Apply(s, TickStart);
    assert mid.t == s.t && mid.tick == Some([ip]) && mid.fast == s.fast;
    var r := Apply(mid, TickEnd(map[], map[]));
    RunOfTwo(s, TickStart, TickEnd(map[], map[]));
    StepKeepsInv(s, TickStart);
    StepKeepsInv(mid, TickEnd(map[], map[]));
    StepActs(mid, TickEnd(map[], map[]), ip);
    forall other | other != ip ensures other !in r.t.stats {
      StepActs(mid, TickEnd(map[], map[]), other);
      assert At(s.t, other).stats.None?;
      assert At(r.t, other).stats.None?;
    }
    hide Inv, TickRows, ApplyARPs, DistinctRows, RowOf;
  }

  /** A fast probe without a reply. */
  lemma MissedProbe(s: Sys, ip: IP, k: nat)
    requires Resting(s, ip, k) && 1 <= k < DEAD_AFTER
    ensures Legal(s, [FastStart([ip]), FastEnd(map[])]) && Resting(Run(s, [FastStart([ip]), FastEnd(map[])]), ip, k + 1)
  {
    forall i ensures i in [ip] <==> Suspect(s.t.stats, i) {
    }
    var mid := Apply(s, FastStart([ip]));
    assert mid == s.(fast := Some([ip]));
    var r := Apply(mid, FastEnd(map[]));
    RunOfTwo(s, FastStart([ip]), FastEnd(map[]));
    StepKeepsInv(s, FastStart([ip]));
    StepKeepsInv(mid, FastEnd(map[]));
    StepActs(mid, FastEnd(map[]), ip);
    forall other | other != ip ensures other !in r.t.stats {
      StepActs(mid, FastEnd(map[]), other);
      assert At(s.t, other).stats.None?;
      assert At(r.t, other).stats.None?;
    }
    hide Inv, FastRows, DistinctRows, RowOf;
  }

  lemma {:induction false} MissedProbes(s: Sys, ip: IP, k: nat) returns (run: seq<Action>)
    requires Resting(s, ip, k) && 1 <= k <= DEAD_AFTER
    ensures Legal(s, run) && Resting(Run(s, run), ip, DEAD_AFTER)
    decreases DEAD_AFTER - k
  {
    if k == DEAD_AFTER {
      run := [];
    } else {
      var round := [FastStart([ip]), FastEnd(map[])];
      MissedProbe(s, ip, k);
      hide Resting;
      var rest := MissedProbes(Run(s, round), ip, k + 1);
      RunConcat(s, round, rest);
      run := round + rest;
    }
  }

  /** Any live host can be dead in the watch phase. */
  lemma DeathIsReachable(h: Host) returns (run: seq<Action>)
    requires h.status != Dead && Seen(h)
    ensures Legal(OneHost(h), run) && Resting(Run(OneHost(h), run), h.ip, DEAD_AFTER)
  {
    var s := OneHost(h);
    OneHostStarts(h);
    var tick := [TickStart, TickEnd(map[], map[])];
    MissedTick(s, h.ip);
    hide Resting, OneHost;
    var rest := MissedProbes(Run(s, tick), h.ip, 1);
    RunConcat(s, tick, rest);
    run := tick + rest;
  }

  lemma RescanUnderWay(s: Sys, ip: IP, again: Host)
    requires Resting(s, ip, DEAD_AFTER) && again.ip == ip && again.status != Dead && again.latency < 0
    ensures Legal(s, [RescanStart, Ready(again)])
    ensures var r := Run(s, [RescanStart, Ready(again)]);
            && Inv(r) && r.rescans == 1 && r.told == map[ip := again]
            && CellMisses(At(r.t, ip).stats) == DEAD_AFTER
  {
    var mid := Apply(s, RescanStart);
    StepKeepsInv(s, RescanStart);
    StepActs(s, RescanStart, ip);
    assert mid.rescans == 1;
    RunOfTwo(s, RescanStart, Ready(again));
    StepKeepsInv(mid, Ready(again));
    StepActs(mid, Ready(again), ip);
    hide Inv, PutRow, RecordPing, RowOf;
  }

  lemma RescanStrandsIt(s: Sys, again: Host)
    requires Inv(s) && s.rescans == 1 && s.told == map[again.ip := again]
    requires CellMisses(At(s.t, again.ip).stats) == DEAD_AFTER
    requires again.status != Dead && again.latency < 0
    ensures Legal(s, [RescanEnd([again])])
    ensures var r := Run(s, [RescanEnd([again])]); Stranded(At(r.t, again.ip)) && r.t.phase == Watch
  {
    OnlyRow(again, again.ip);
    assert Enabled(s, RescanEnd([again]));
    var r := Apply(s, RescanEnd([again]));
    assert r.t.phase == Watch;
    RescanStrands(s, [again], again);
    hide Enabled, Apply, Inv, Stranded, At;
    assert [RescanEnd([again])][1..] == [] && Legal(r, []);
    assert Legal(s, [RescanEnd([again])]) && Run(s, [RescanEnd([again])]) == r;
  }

  /**
   * A run that strands a host: it is scanned, misses a tick and nine probes, and a rescan finds it
   * again, say by an open port, but gets no reply to a ping.
   */
  lemma StrandingIsReachable(h: Host, again: Host) returns (run: seq<Action>)
    requires h.status != Dead && Seen(h) && again.ip == h.ip && again.status != Dead && again.latency < 0
    ensures ScanReports([Ready(h)], [h]) && Legal(OneHost(h), run)
    ensures Stranded(At(Run(OneHost(h), run).t, h.ip)) && Run(OneHost(h), run).t.phase == Watch
  {
    OneHostStarts(h);
    hide OneHost, Inv, At, Stranded;
    var death := DeathIsReachable(h);
    hide Resting, ScanReports;
    var s := Run(OneHost(h), death);
    RescanUnderWay(s, h.ip, again);
    RescanStrandsIt(Run(s, [RescanStart, Ready(again)]), again);
    hide Legal, Run;
    RunConcat(s, [RescanStart, Ready(again)], [RescanEnd([again])]);
    run := [RescanStart, Ready(again)] + [RescanEnd([again])];
    RunConcat(OneHost(h), death, run);
    run := death + run;
  }

  /** A run in which a dead row shows a latency: the host dies, and a port of it opens during a rescan. */
  lemma LatencyOfDeadRowIsReachable(h: Host, ms: nat) returns (run: seq<Action>)
    requires h.status != Dead && Seen(h)
    ensures ScanReports([Ready(h)], [h]) && Legal(OneHost(h), run)
    ensures var row := RowOf(Run(OneHost(h), run).t.hosts, h.ip);
            row.Some? && row.value.status == Dead && row.value.latency == ms
  {
    OneHostStarts(h);
    var death := DeathIsReachable(h);
    var s := Run(OneHost(h), death);
    assert At(s.t, h.ip).row == RowOf(s.t.hosts, h.ip);
    RescanShowsLatencyOfDeadRow(s, h.ip, ms);
    hide Legal, Run, Apply, Enabled, Inv, OneHost, RowOf, Resting;
    RunConcat(OneHost(h), death, [RescanStart, Opened(h.ip, ms)]);
    run := death + [RescanStart, Opened(h.ip, ms)];
  }

  /** A host that was found without ports, status or positive latency is never counted as missing from the start. */
  lemma NeverLiveIsReachable(h: Host)
    requires h.ports == [] && h.latency <= 0 && (h.status == Unset || h.status == Discovered)
    ensures ScanReports([Ready(h)], [h]) && NeverLive(At(OneHost(h).t, h.ip))
  {
    OneHostStarts(h);
    hide Inv, OneHost;
  }
}
