/** How misses add up to a death, in every interleaving of ticks, fast probes and everything else. */
module Escalation {
  import opened Wrappers
  import opened Sorting
  import opened PingStats
  import opened HostTable
  import opened HostCells
  import opened WatchRuns

  // ---- ten misses and death ----

  predicate TenMeansDead(c: Cell) {
    CellMisses(c.stats) == DEAD_AFTER ==> c.row.Some? && c.row.value.status == Dead
  }

  /** The hosts an action puts in the place of their rows. */
  function Replacements(a: Action): (hosts: seq<Host>) {
    match a
    case Resolved(host) => [host]
    case Ready(host) => [host]
    case RescanEnd(found) => found
    case _ => []
  }

  /** Putting a host without a latency in the place of a row keeps its old miss count. */
  predicate KeepsTen(s: Sys, h: Host) {
    h.latency < 0 && CellMisses(At(s.t, h.ip).stats) == DEAD_AFTER
  }

  lemma CellTenMeansDead(s: Sys, a: Action, ip: IP)
    requires Enabled(s, a) && CellOk(At(s.t, ip), Probing(s, ip)) && TenMeansDead(At(s.t, ip))
    ensures TenMeansDead(StepCell(s, a, At(s.t, ip), ip))
       <==> forall h | h in Replacements(a) && h.ip == ip :: !KeepsTen(s, h)
  {
    hide DistinctRows, FillPorts, Index, Distinct;
    if a.RescanEnd? {
      var h := RowOf(a.found, ip);
      RowOfReplacement(a.found, ip);
      hide RowOf;
      if h.Some? {
        assert h.value in Replacements(a);
      }
    } else if a.Resolved? || a.Ready? {
      hide RowOf;
      assert a.host in Replacements(a);
    }
  }

  lemma RowOfReplacement(found: seq<Host>, ip: IP)
    requires DistinctRows(found)
    ensures RowOf(found, ip).Some? ==> RowOf(found, ip).value in found && RowOf(found, ip).value.ip == ip
    ensures forall h | h in found && h.ip == ip :: RowOf(found, ip) == Some(h)
  {
  }

  /**
   * "Ten misses mean dead" survives a step exactly when the step does not put a host without a
   * latency in the place of a row that has ten misses.
   */
  lemma TenMeansDeadSurvives(s: Sys, a: Action)
    requires Enabled(s, a) && Inv(s) && forall ip :: TenMeansDead(At(s.t, ip))
    ensures (forall ip :: TenMeansDead(At(Apply(s, a).t, ip))) <==> (forall h | h in Replacements(a) :: !KeepsTen(s, h))
  {
    forall ip
      ensures TenMeansDead(At(Apply(s, a).t, ip)) <==> forall h | h in Replacements(a) && h.ip == ip :: !KeepsTen(s, h)
    {
      assert CellOk(At(s.t, ip), Probing(s, ip)) && TenMeansDead(At(s.t, ip));
      StepActs(s, a, ip);
      CellTenMeansDead(s, a, ip);
    }
    hide TenMeansDead, KeepsTen, At, Apply, Inv, Enabled;
    if forall ip :: TenMeansDead(At(Apply(s, a).t, ip)) {
      forall h | h in Replacements(a) ensures !KeepsTen(s, h) {
        assert TenMeansDead(At(Apply(s, a).t, h.ip));
      }
    }
  }

  /** At every point of the run ten misses mean dead, for every host. */
  ghost predicate TenMeansDeadThroughout(s: Sys, run: seq<Action>)
    requires Legal(s, run)
    decreases |run|
  {
    (forall ip :: TenMeansDead(At(s.t, ip))) && (run == [] || TenMeansDeadThroughout(Apply(s, run[0]), run[1..]))
  }

  /** No step of the run puts a host without a latency in the place of a row that has ten misses. */
  ghost predicate KeepsNoTen(s: Sys, run: seq<Action>)
    requires Legal(s, run)
    decreases |run|
  {
    run == [] || ((forall h | h in Replacements(run[0]) :: !KeepsTen(s, h)) && KeepsNoTen(Apply(s, run[0]), run[1..]))
  }

  /** The same over runs; so runs of ticks, fast probes, removals and HTTP reports never break it. */
  lemma {:induction false} TenMeansDeadOverRuns(s: Sys, run: seq<Action>)
    requires Inv(s) && Legal(s, run) && forall ip :: TenMeansDead(At(s.t, ip))
    ensures TenMeansDeadThroughout(s, run) <==> KeepsNoTen(s, run)
    ensures (forall a | a in run :: Replacements(a) == []) ==> TenMeansDeadThroughout(s, run)
    decreases |run|
  {
    hide TenMeansDead, KeepsTen, At, Apply, Inv, Enabled, Replacements;
    if run != [] {
      TenMeansDeadSurvives(s, run[0]);
      StepKeepsInv(s, run[0]);
      if forall ip :: TenMeansDead(At(Apply(s, run[0]).t, ip)) {
        TenMeansDeadOverRuns(Apply(s, run[0]), run[1..]);
      }
    }
  }

  // ---- a host that stays silent ----

  /** Nothing in the action is news of the host. */
  predicate Silent(a: Action, ip: IP) {
    match a
    case TickEnd(pings, _) => ip !in pings
    case FastEnd(pings) => ip !in pings
    case Resolved(host) => host.ip != ip
    case Vanished(i) => i != ip
    case Ready(host) => host.ip != ip
    case RescanEnd(_) => false
    case _ => true
  }

  /** At least one miss, and dead exactly at the tenth. */
  predicate Failing(c: Cell) {
    && c.row.Some?
    && 1 <= CellMisses(c.stats) <= DEAD_AFTER
    && (c.row.value.status == Dead <==> CellMisses(c.stats) == DEAD_AFTER)
  }

  /** The fast probes that pinged the host and came back. */
  ghost function FastRounds(s: Sys, run: seq<Action>, ip: IP): (n: nat)
    requires Legal(s, run)
    decreases |run|
  {
    if run == [] then 0
    else (if run[0].FastEnd? && Probing(s, ip) then 1 else 0) + FastRounds(Apply(s, run[0]), run[1..], ip)
  }

  /**
   * Once a host is suspect and stays silent, only the fast probes count: each one that pinged it adds
   * one miss, ticks add none, and it is dead exactly when there are ten.
   */
  lemma {:induction false} SilentSuspect(s: Sys, run: seq<Action>, ip: IP)
    requires Inv(s) && Legal(s, run) && Failing(At(s.t, ip)) && forall a | a in run :: Silent(a, ip)
    ensures var c := At(Run(s, run).t, ip);
            && Failing(c)
            && CellMisses(c.stats) == CellMisses(At(s.t, ip).stats) + FastRounds(s, run, ip)
    decreases |run|
  {
    if run != [] {
      var r := Apply(s, run[0]);
      assert Inv(r) by {
        hide Inv;
        StepKeepsInv(s, run[0]);
      }
      assert CellOk(At(s.t, ip), Probing(s, ip));
      StepActs(s, run[0], ip);
      SteadyCell(s, run[0], ip, false);
      hide Inv, Failing, StepCell, Apply, Enabled, CellOk, At, Silent;
      SilentSuspect(r, run[1..], ip);
    }
  }

  // ---- how long a silent host lives ----

  function FastEnds(run: seq<Action>): (n: nat) {
    if run == [] then 0 else (if run[0].FastEnd? then 1 else 0) + FastEnds(run[1..])
  }

  /** A fast probe is under way that set out without the host. */
  predicate Stale(s: Sys, ip: IP) {
    s.fast.Some? && !Probing(s, ip)
  }

  /** The row has a MAC or ports, so discovery cannot remove it. */
  predicate Solid(c: Cell) {
    c.row.Some? && (c.row.value.mac != "" || c.row.value.ports != [])
  }

  /** No news of the host; a removal of a solid host is none, for it does nothing. */
  predicate Steady(a: Action, ip: IP, solid: bool) {
    Silent(a, ip) || (solid && a == Vanished(ip))
  }

  lemma SteadyFlight(s: Sys, a: Action, ip: IP)
    requires Enabled(s, a)
    ensures var r := Apply(s, a);
            && (a.FastEnd? ==> r.fast.None?)
            && (a.FastStart? ==> s.fast.None? && (Suspect(s.t.stats, ip) ==> !Stale(r, ip)))
            && (!a.FastEnd? && !a.FastStart? ==> r.fast == s.fast)
  {
    hide TickApply, FastApply, AddPlaceholder, Upsert, RemoveHost, HTTPRefresh, DistinctRows, Distinct, Suspect;
    hide ApplyRescan, PortOpen, EnrichStart, TriggerRescan, TickSnapshot;
  }

  lemma SteadyCell(s: Sys, a: Action, ip: IP, solid: bool)
    requires Enabled(s, a) && Steady(a, ip, solid) && (solid ==> Solid(At(s.t, ip)))
    requires CellOk(At(s.t, ip), Probing(s, ip)) && Failing(At(s.t, ip))
    ensures var c := StepCell(s, a, At(s.t, ip), ip);
            && Failing(c) && (solid ==> Solid(c))
            && CellMisses(c.stats) == CellMisses(At(s.t, ip).stats) + if a.FastEnd? && Probing(s, ip) then 1 else 0
  {
    hide DistinctRows, FillPorts, RowOf;
  }

  /** A probe that set out without the host counts for nothing, and it is the only such probe. */
  lemma SteadyStep(s: Sys, a: Action, ip: IP, solid: bool)
    requires Inv(s) && Enabled(s, a) && Steady(a, ip, solid) && (solid ==> Solid(At(s.t, ip))) && Failing(At(s.t, ip))
    ensures var (r, m) := (Apply(s, a), CellMisses(At(s.t, ip).stats));
            && Inv(r) && Failing(At(r.t, ip)) && (solid ==> Solid(At(r.t, ip)))
            && CellMisses(At(r.t, ip).stats) == (if a.FastEnd? && !Stale(s, ip) && m < DEAD_AFTER then m + 1 else m)
            && (m < DEAD_AFTER ==> (Stale(r, ip) <==> Stale(s, ip) && !a.FastEnd?))
  {
    StepKeepsInv(s, a);
    assert CellOk(At(s.t, ip), Probing(s, ip));
    assert Suspect(s.t.stats, ip) <==> CellMisses(At(s.t, ip).stats) < DEAD_AFTER by {
      assert Failing(At(s.t, ip));
    }
    StepActs(s, a, ip);
    SteadyFlight(s, a, ip);
    SteadyCell(s, a, ip, solid);
    hide Inv, Apply, Steady, Failing, StepCell, At, Solid, Suspect;
  }

  /** Every fast probe that comes back adds a miss, until there are ten, except one that set out without the host. */
  lemma {:induction false} EveryProbeCounts(s: Sys, run: seq<Action>, ip: IP, solid: bool)
    requires Inv(s) && Legal(s, run) && Failing(At(s.t, ip)) && (solid ==> Solid(At(s.t, ip)))
    requires forall a | a in run :: Steady(a, ip, solid)
    ensures var n := FastEnds(run);
            var m := CellMisses(At(s.t, ip).stats) + if Stale(s, ip) && n > 0 then n - 1 else n;
            var c := At(Run(s, run).t, ip);
            Failing(c) && CellMisses(c.stats) == if m < DEAD_AFTER then m else DEAD_AFTER
    decreases |run|
  {
    if run != [] {
      SteadyStep(s, run[0], ip, solid);
      hide Inv, Apply, Steady, Failing, At, Solid, Stale, Enabled;
      EveryProbeCounts(Apply(s, run[0]), run[1..], ip, solid);
    } else {
      hide Inv, At;
    }
  }

  /**
   * A host that has an open port, a latency above 0 ms or the status live or ARP, and falls silent, dies
   * of one missed tick and nine missed fast probes, no sooner and no later, whatever other ticks, probes,
   * discoveries, removals, reports and switches come in between, until a rescan ends. A probe that was
   * under way without the host when the tick missed it does not count.
   */
  lemma SilentHostDies(s: Sys, pings: map<IP, nat>, arp: map<IP, string>, run: seq<Action>, ip: IP)
    requires Inv(s) && s.tick.Some? && ip in s.tick.value && ip !in pings
    requires At(s.t, ip).row.Some? && CellMisses(At(s.t, ip).stats) == 0
    requires var h := At(s.t, ip).row.value;
             h.status != Dead && (h.ports != [] || h.latency > 0 || h.status == Live || h.status == Arp)
    requires Legal(s, [TickEnd(pings, arp)] + run)
    requires forall a | a in run :: Steady(a, ip, Solid(At(s.t, ip)))
    ensures var n := FastEnds(run);
            var probes := if Stale(s, ip) && n > 0 then n - 1 else n;
            var c := At(Run(s, [TickEnd(pings, arp)] + run).t, ip);
            && c.row.Some? && (c.row.value.status == Dead <==> probes >= 9)
            && CellMisses(c.stats) == if probes < 9 then 1 + probes else DEAD_AFTER
  {
    var whole := [TickEnd(pings, arp)] + run;
    assert whole[1..] == run;
    var r := Apply(s, whole[0]);
    StepKeepsInv(s, whole[0]);
    StepActs(s, whole[0], ip);
    assert Failing(At(r.t, ip)) && CellMisses(At(r.t, ip).stats) == 1;
    assert Solid(At(s.t, ip)) ==> Solid(At(r.t, ip));
    assert Stale(r, ip) <==> Stale(s, ip);
    hide Inv, StepCell, Apply, Enabled, Solid, Stale, FastEnds, Steady;
    EveryProbeCounts(r, run, ip, Solid(At(s.t, ip)));
  }

  /** None of the ticks that end in the run has pinged the host. */
  ghost predicate Unasked(s: Sys, run: seq<Action>, ip: IP)
    requires Legal(s, run)
    decreases |run|
  {
    run == [] || (!(run[0].TickEnd? && ip in s.tick.value) && Unasked(Apply(s, run[0]), run[1..], ip))
  }

  /** A reply that took longer than 0 ms keeps a host within reach of the ticks, as long as its row stays. */
  lemma {:induction false} AnsweredStaysSeen(s: Sys, run: seq<Action>, ip: IP, ms: nat)
    requires Inv(s) && Legal(s, run) && ms > 0 && !Probing(s, ip)
    requires Answered(At(s.t, ip), ms) && Unasked(s, run, ip) && forall a | a in run :: Quiet(a, ip)
    ensures Inv(Run(s, run)) && Answered(At(Run(s, run).t, ip), ms)
    decreases |run|
  {
    if run != [] {
      StepKeepsInv(s, run[0]);
      StepActs(s, run[0], ip);
      AnsweredStep(s, run[0], ip, ms);
      hide Inv, Answered, StepCell, Apply, Enabled, At, Quiet, Probing;
      AnsweredStaysSeen(Apply(s, run[0]), run[1..], ip, ms);
    }
  }

  /** The row shows a latency, is not dead and has no misses. */
  predicate Answered(c: Cell, ms: nat) {
    c.row.Some? && c.row.value.latency == ms && c.row.value.status != Dead && CellMisses(c.stats) == 0
  }

  lemma AnsweredStep(s: Sys, a: Action, ip: IP, ms: nat)
    requires Inv(s) && Enabled(s, a) && Quiet(a, ip) && !(a.TickEnd? && ip in s.tick.value)
    requires Answered(At(s.t, ip), ms) && !Probing(s, ip)
    ensures Answered(StepCell(s, a, At(s.t, ip), ip), ms) && !Probing(Apply(s, a), ip)
  {
    assert !Suspect(s.t.stats, ip);
    hide DistinctRows, RowOf, TickApply, FastApply, AddPlaceholder, Upsert, RemoveHost, HTTPRefresh, ApplyRescan;
    hide PortOpen, EnrichStart, TriggerRescan, Inv, FillPorts;
  }

  /**
   * So a host dies that answered one ping in more than 0 ms, by a tick or a fast probe, and then falls
   * silent: at the ninth fast probe after the tick that missed it first.
   */
  lemma AnsweredHostDies(s: Sys, a: Action, wait: seq<Action>, pings: map<IP, nat>, arp: map<IP, string>,
                         run: seq<Action>, ip: IP)
    requires Inv(s) && Enabled(s, a) && RowOf(s.t.hosts, ip).Some?
    requires ReplyOf(s, a, ip).Some? && ReplyOf(s, a, ip).value > 0 && !Probing(Apply(s, a), ip)
    requires Legal(Apply(s, a), wait) && Unasked(Apply(s, a), wait, ip) && forall b | b in wait :: Quiet(b, ip)
    requires var r := Run(Apply(s, a), wait);
             && r.tick.Some? && ip in r.tick.value && ip !in pings
             && Legal(r, [TickEnd(pings, arp)] + run)
             && forall b | b in run :: Steady(b, ip, Solid(At(r.t, ip)))
    ensures var r := Run(Apply(s, a), wait);
            var n := FastEnds(run);
            var probes := if Stale(r, ip) && n > 0 then n - 1 else n;
            var c := At(Run(r, [TickEnd(pings, arp)] + run).t, ip);
            c.row.Some? && (c.row.value.status == Dead <==> probes >= 9)
  {
    var ms := ReplyOf(s, a, ip).value;
    ReplyRevives(s, a, ip);
    StepKeepsInv(s, a);
    hide Inv, Apply, Enabled, StepCell, RowOf, ReplyOf, Quiet, Steady, Stale, FastEnds, Probing, Legal, Run;
    hide Unasked;
    AnsweredStaysSeen(Apply(s, a), wait, ip, ms);
    SilentHostDies(Run(Apply(s, a), wait), pings, arp, run, ip);
  }

  /** With pinging switched off and no probe under way, a suspect host waits: it does not come nearer to death. */
  lemma {:induction false} PausedSuspectWaits(s: Sys, run: seq<Action>, ip: IP)
    requires Inv(s) && Legal(s, run) && !s.t.autoPing && s.fast.None? && Failing(At(s.t, ip))
    requires forall a | a in run :: Silent(a, ip) && !a.Toggle?
    ensures var c := At(Run(s, run).t, ip);
            Failing(c) && CellMisses(c.stats) == CellMisses(At(s.t, ip).stats) && FastEnds(run) == 0
    decreases |run|
  {
    if run != [] {
      var a := run[0];
      StepKeepsInv(s, a);
      assert CellOk(At(s.t, ip), Probing(s, ip));
      StepActs(s, a, ip);
      SteadyCell(s, a, ip, false);
      PausedFrame(s, a);
      hide Inv, Failing, StepCell, Apply, Enabled, CellOk, At, Silent;
      PausedSuspectWaits(Apply(s, a), run[1..], ip);
    }
  }

  lemma PausedFrame(s: Sys, a: Action)
    requires Enabled(s, a) && !s.t.autoPing && s.fast.None? && !a.Toggle?
    ensures !Apply(s, a).t.autoPing && Apply(s, a).fast.None? && !a.FastEnd?
  {
    hide TickRows, FastRows, ApplyARPs, PutRow, RecordPing, Index, BareIndex, UpsertPlaceholder, Placeholders;
    hide Reconcile, RecordAll, DistinctRows, Distinct;
  }

  // ---- a host that replies ----

  /** The reply to a ping of the host that the action brings. */
  function ReplyOf(s: Sys, a: Action, ip: IP): (ms: Option<nat>) {
    match a
    case TickEnd(pings, _) => if s.tick.Some? && ip in s.tick.value && ip in pings then Some(pings[ip]) else None
    case FastEnd(pings) => if Probing(s, ip) && ip in pings then Some(pings[ip]) else None
    case _ => None
  }

  /** One reply undoes any number of misses: the row shows it, and a dead host is live or unset again. */
  lemma ReplyRevives(s: Sys, a: Action, ip: IP)
    requires Inv(s) && Enabled(s, a) && ReplyOf(s, a, ip).Some? && RowOf(s.t.hosts, ip).Some?
    ensures var (before, c) := (RowOf(s.t.hosts, ip).value, At(Apply(s, a).t, ip));
            && c.row.Some? && c.row.value.latency == ReplyOf(s, a, ip).value
            && c.stats.Some? && c.stats.value.misses == 0
            && c.stats.value.samples != []
            && c.stats.value.samples[|c.stats.value.samples| - 1] == ReplyOf(s, a, ip).value
            && c.row.value.ports == before.ports
            && c.row.value.status == if before.status != Dead then before.status
                                     else if before.ports != [] then Live else Unset
  {
    StepActs(s, a, ip);
    NewestKept(StatsFor(s.t.stats, ip).samples, ReplyOf(s, a, ip).value);
    hide DistinctRows, Apply, RowOf, Inv, Window, Seen, FillPorts, ApplyARP;
    assert RowOf(s.t.hosts, ip) == At(s.t, ip).row;
  }

  lemma NewestKept(samples: seq<int>, ms: int)
    ensures var w := Window(samples + [ms]); w != [] && w[|w| - 1] == ms
  {
  }

  // ---- hosts that never die ----

  /**
   * A tick that gets no reply counts a first miss exactly for a row with an open port, a latency above
   * 0 ms, or a status other than "discovered".
   */
  lemma TickCountsOnlyLive(s: Sys, pings: map<IP, nat>, arp: map<IP, string>, ip: IP)
    requires Inv(s) && s.tick.Some? && ip in s.tick.value && ip !in pings
    requires RowOf(s.t.hosts, ip).Some? && Misses(s.t.stats, ip) == 0
    ensures var (h, after) := (RowOf(s.t.hosts, ip).value, Apply(s, TickEnd(pings, arp)).t.stats);
            var counts := h.ports != [] || h.latency > 0 || h.status == Dead || h.status == Live || h.status == Arp;
            Misses(after, ip) == if counts then 1 else 0
  {
    StepActs(s, TickEnd(pings, arp), ip);
    assert CellMisses(At(s.t, ip).stats) == 0;
    hide Inv, Apply, RowOf;
  }

  /** Ten misses without being dead. */
  predicate Stranded(c: Cell) {
    c.row.Some? && c.row.value.status != Dead && CellMisses(c.stats) == DEAD_AFTER
  }

  lemma StrandedStep(s: Sys, a: Action, ip: IP)
    requires Enabled(s, a) && Silent(a, ip)
    requires CellOk(At(s.t, ip), Probing(s, ip)) && Stranded(At(s.t, ip))
    ensures Stranded(StepCell(s, a, At(s.t, ip), ip))
  {
    hide DistinctRows, FillPorts, RowOf;
  }

  /** A stranded host is in nobody's charge any more: however long it stays silent it never dies. */
  lemma {:induction false} StrandedForever(s: Sys, run: seq<Action>, ip: IP)
    requires Inv(s) && Legal(s, run) && Stranded(At(s.t, ip)) && forall a | a in run :: Silent(a, ip)
    ensures Stranded(At(Run(s, run).t, ip))
    decreases |run|
  {
    if run != [] {
      StepKeepsInv(s, run[0]);
      assert CellOk(At(s.t, ip), Probing(s, ip));
      StepActs(s, run[0], ip);
      StrandedStep(s, run[0], ip);
      hide Inv, Stranded, StepCell, Apply, Enabled, CellOk, At, Silent;
      StrandedForever(Apply(s, run[0]), run[1..], ip);
    }
  }

  /** A rescan that finds a dead host again without getting a reply from it strands it. */
  lemma RescanStrands(s: Sys, found: seq<Host>, h: Host)
    requires Inv(s) && Enabled(s, RescanEnd(found)) && h in found && h.latency < 0
    requires CellMisses(At(s.t, h.ip).stats) == DEAD_AFTER
    ensures Stranded(At(Apply(s, RescanEnd(found)).t, h.ip))
  {
    StepActs(s, RescanEnd(found), h.ip);
    RowOfReplacement(found, h.ip);
    hide DistinctRows;
  }

  /** Nothing that would give the row ports, a latency or a status. */
  predicate Quiet(a: Action, ip: IP) {
    Silent(a, ip) && !a.Opened? && !a.Enriched?
  }

  /** A row that no tick counts as missing. */
  predicate NeverLive(c: Cell) {
    && c.row.Some? && CellMisses(c.stats) == 0
    && c.row.value.ports == [] && c.row.value.latency <= 0
    && (c.row.value.status == Unset || c.row.value.status == Discovered)
  }

  lemma NeverLiveStep(s: Sys, a: Action, ip: IP)
    requires Enabled(s, a) && Quiet(a, ip) && NeverLive(At(s.t, ip)) && !Probing(s, ip)
    ensures NeverLive(StepCell(s, a, At(s.t, ip), ip)) && !Probing(Apply(s, a), ip)
  {
    hide DistinctRows, RowOf, TickApply, FastApply, AddPlaceholder, Upsert, RemoveHost, HTTPRefresh, ApplyRescan;
    hide PortOpen, EnrichStart, TriggerRescan;
  }

  /**
   * A row without ports and positive latency, and with no status or the status "discovered", is never
   * counted as missing, so it never dies; that includes a host whose only reply took less than a
   * millisecond.
   */
  lemma {:induction false} NeverLiveNeverDies(s: Sys, run: seq<Action>, ip: IP)
    requires Inv(s) && Legal(s, run) && NeverLive(At(s.t, ip)) && !Probing(s, ip) && forall a | a in run :: Quiet(a, ip)
    ensures NeverLive(At(Run(s, run).t, ip))
    decreases |run|
  {
    if run != [] {
      StepKeepsInv(s, run[0]);
      StepActs(s, run[0], ip);
      NeverLiveStep(s, run[0], ip);
      hide Inv, NeverLive, StepCell, Apply, Enabled, CellOk, At, Quiet, Probing;
      NeverLiveNeverDies(Apply(s, run[0]), run[1..], ip);
    }
  }

  // ---- rows are not lost ----

  /** A row disappears only when discovery gives up on a host nothing is known about. */
  lemma RowLostOnlyWhenBare(s: Sys, a: Action, ip: IP)
    requires Inv(s) && Enabled(s, a) && RowOf(s.t.hosts, ip).Some?
    ensures RowOf(Apply(s, a).t.hosts, ip).None?
       <==> a == Vanished(ip) && RowOf(s.t.hosts, ip).value.mac == "" && RowOf(s.t.hosts, ip).value.ports == []
  {
    StepActs(s, a, ip);
    hide DistinctRows, FillPorts, Apply, RowOf, Inv;
    assert RowOf(Apply(s, a).t.hosts, ip) == At(Apply(s, a).t, ip).row;
  }

  /** However many rescans, ticks and probes run, no other row is lost. */
  lemma {:induction false} NoRowLost(s: Sys, run: seq<Action>, ip: IP)
    requires Inv(s) && Legal(s, run) && RowOf(s.t.hosts, ip).Some? && Vanished(ip) !in run
    ensures RowOf(Run(s, run).t.hosts, ip).Some?
    decreases |run|
  {
    if run != [] {
      StepKeepsInv(s, run[0]);
      RowLostOnlyWhenBare(s, run[0], ip);
      hide Inv, RowOf, Apply, Enabled;
      NoRowLost(Apply(s, run[0]), run[1..], ip);
    }
  }

  // ---- dead rows and latencies ----

  /** The action gives the row of a dead host a latency. */
  predicate Lights(s: Sys, a: Action, ip: IP) {
    var row := RowOf(s.t.hosts, ip);
    && row.Some? && row.value.status == Dead
    && match a
       case Opened(i, ms) => i == ip && BestLatency(s.t, ip, ms) >= 0
       case Enriched(ips) => ip in ips && ip in s.t.scanHosts && s.t.scanHosts[ip] >= 0
       case _ => false
  }

  lemma CellStaysMute(s: Sys, a: Action, ip: IP)
    requires Enabled(s, a) && DeadIsMute(At(s.t, ip))
    ensures DeadIsMute(StepCell(s, a, At(s.t, ip), ip)) <==> !Lights(s, a, ip)
  {
    hide DistinctRows, FillPorts, Index, Distinct;
    if a.RescanEnd? {
      RowOfReplacement(a.found, ip);
    }
    hide RowOf;
  }

  /**
   * Dead rows show no latency after a step exactly when the step is not one of a rescan that reports,
   * or has reported, an open port of a dead host with a latency.
   */
  lemma DeadRowsStayMute(s: Sys, a: Action)
    requires Enabled(s, a) && Inv(s) && forall ip :: DeadIsMute(At(s.t, ip))
    ensures (forall ip :: DeadIsMute(At(Apply(s, a).t, ip))) <==> (forall ip :: !Lights(s, a, ip))
  {
    forall ip ensures DeadIsMute(At(Apply(s, a).t, ip)) <==> !Lights(s, a, ip) {
      assert DeadIsMute(At(s.t, ip));
      StepActs(s, a, ip);
      CellStaysMute(s, a, ip);
    }
    hide DeadIsMute, Lights, At, Apply, Inv, Enabled;
  }

  /** While a rescan runs, a port of a dead host that opens gives the dead row a latency. */
  lemma RescanShowsLatencyOfDeadRow(s: Sys, ip: IP, ms: nat)
    requires Inv(s) && s.t.phase == Watch && RowOf(s.t.hosts, ip).Some? && RowOf(s.t.hosts, ip).value.status == Dead
    ensures Legal(s, [RescanStart, Opened(ip, ms)])
    ensures var row := RowOf(Run(s, [RescanStart, Opened(ip, ms)]).t.hosts, ip);
            row.Some? && row.value.status == Dead && row.value.latency == ms
  {
    var run := [RescanStart, Opened(ip, ms)];
    var mid := Apply(s, run[0]);
    assert run[1..] == [Opened(ip, ms)] && run[1..][1..] == [];
    assert DeadIsMute(At(s.t, ip));
    assert Legal(Apply(mid, run[1]), []);
    assert Legal(mid, run[1..]);
    StepActs(s, run[0], ip);
    StepActs(mid, run[1], ip);
    hide Inv, RowOf, PortOpen;
    assert Run(s, run) == Run(mid, run[1..]) == Apply(mid, run[1]);
  }
}
