/**
 * scanTUI of tui.go: the locked sections, as methods that change the table in place. Each is proved
 * to turn the state into the one HostTable's function of the same name gives. A section that lets go
 * of the lock while pinging (runPingTick, runFastProbe) is two methods, a snapshot and an apply.
 */
module ScanTUI {
  import opened Wrappers
  import opened Sorting
  import opened PingStats
  import opened HostTable

  /** splitIPChunks (main.go). */
  method SplitIPChunks(ips: seq<IP>, size: int) returns (chunks: seq<seq<IP>>)
    ensures chunks == Chunks(ips, size)
  {
    if size <= 0 || |ips| <= size {
      return [ips];
    }
    chunks := [];
    var i := 0;
    while i < |ips|
      invariant 0 <= i <= |ips|
      invariant i < |ips| ==> Chunks(ips, size) == chunks + Chunks(ips[i..], size)
      invariant i == |ips| ==> Chunks(ips, size) == chunks
      decreases |ips| - i
    {
      var end := i + size;
      if end > |ips| {
        end := |ips|;
      }
      assert end < |ips| ==> ips[i..][..size] == ips[i..end] && ips[i..][size..] == ips[end..];
      assert end == |ips| ==> ips[i..] == ips[i..end];
      chunks := chunks + [ips[i..end]];
      i := end;
    }
  }

  lemma TickRowsStart(rows: seq<Host>, stats: map<IP, Stats>, batch: set<IP>, pings: map<IP, nat>)
    ensures TickRows(rows[..0], stats, batch, pings) == ([], stats)
    ensures [] + rows[0..] == rows
  {
  }

  lemma TickRowsSnoc(rows: seq<Host>, i: nat, stats: map<IP, Stats>, batch: set<IP>, pings: map<IP, nat>)
    requires i < |rows|
    ensures |TickRows(rows[..i], stats, batch, pings).0| == i
    ensures var (done, st) := TickRows(rows[..i], stats, batch, pings);
            var (row, st') := TickRow(rows[i], st, batch, pings);
            TickRows(rows[..i + 1], stats, batch, pings) == (done + [row], st')
  {
    hide TickRow;
    assert rows[..i + 1][..i] == rows[..i];
  }

  /** Updating row i puts it behind the rows already done. */
  lemma UpdateBehind(done: seq<Host>, rows: seq<Host>, i: nat, x: Host)
    requires |done| == i < |rows|
    ensures (done + rows[i..])[i] == rows[i]
    ensures (done + rows[i..])[i := x] == (done + [x]) + rows[i + 1..]
  {
  }

  class ScanTUI {
    var hosts: seq<Host>
    var pingStats: map<IP, Stats>
    var phase: Phase
    var rescanning: bool
    var autoPing: bool
    var scanHosts: map<IP, int>
    var watchIPs: seq<IP>
    var ipChunks: seq<seq<IP>>
    var smallNet: bool
    var pingChunk: nat

    /** The state as a value. */
    ghost function View(): (t: Table)
      reads this
    {
      Table(hosts, pingStats, phase, rescanning, autoPing, scanHosts, watchIPs, ipChunks, smallNet, pingChunk)
    }

    constructor ()
      ensures View() == Table([], map[], Scanning, false, false, map[], [], [], false, 0)
    {
      hosts, pingStats, phase, rescanning, autoPing := [], map[], Scanning, false, false;
      scanHosts, watchIPs, ipChunks, smallNet, pingChunk := map[], [], [], false, 0;
    }

    // ---- helpers that need the lock ----

    method IndexOf(ip: IP) returns (i: int)
      ensures i == Index(hosts, ip)
    {
      i := 0;
      while i < |hosts|
        invariant 0 <= i <= |hosts|
        invariant forall k | 0 <= k < i :: hosts[k].ip != ip
      {
        if hosts[i].ip == ip {
          return;
        }
        i := i + 1;
      }
      i := -1;
    }

    method RecordPingLocked(ip: IP, ms: int)
      modifies `pingStats
      ensures pingStats == RecordPing(old(pingStats), ip, ms)
    {
      if ms < 0 {
        return;
      }
      var s := if ip in pingStats then pingStats[ip] else FRESH;
      var samples := s.samples + [ms];
      if |samples| > WINDOW {
        samples := samples[|samples| - WINDOW..];
      }
      var low, high := s.min, s.max;
      if low < 0 || ms < low {
        low := ms;
      }
      if ms > high {
        high := ms;
      }
      pingStats := pingStats[ip := Stats(samples, low, high, 0)];
    }

    method RecordMissLocked(ip: IP) returns (misses: nat)
      modifies `pingStats
      ensures pingStats == RecordMiss(old(pingStats), ip) && misses == pingStats[ip].misses
    {
      var s := if ip in pingStats then pingStats[ip] else FRESH;
      misses := s.misses + 1;
      pingStats := pingStats[ip := s.(misses := misses)];
    }

    method MoveHostToBottomLocked(ip: IP)
      modifies `hosts
      ensures hosts == MoveToBottom(old(hosts), ip)
    {
      var i := IndexOf(ip);
      if i < 0 || i == |hosts| - 1 {
        return;
      }
      var host := hosts[i];
      // the rows behind it move up by one, and it takes the last place
      hosts := hosts[..i] + hosts[i + 1..] + [host];
    }

    method UpsertPlaceholderLocked(ip: IP, latency: int)
      modifies `hosts
      ensures hosts == UpsertPlaceholder(old(hosts), ip, latency)
    {
      for i := 0 to |hosts|
        invariant hosts == old(hosts)
        invariant forall k | 0 <= k < i :: hosts[k].ip != ip
      {
        if hosts[i].ip == ip {
          if latency >= 0 && (hosts[i].latency < 0 || latency < hosts[i].latency) {
            hosts := hosts[i := hosts[i].(latency := latency)];
          }
          return;
        }
      }
      hosts := hosts + [Host(ip, latency, Unset, "", [], "")];
    }

    method RecordRows()
      modifies `pingStats
      ensures pingStats == RecordAll(old(pingStats), hosts)
    {
      for i := 0 to |hosts|
        invariant pingStats == RecordAll(old(pingStats), hosts[..i])
      {
        assert hosts[..i + 1][..i] == hosts[..i];
        if hosts[i].latency >= 0 {
          RecordPingLocked(hosts[i].ip, hosts[i].latency);
        }
      }
      assert hosts[..|hosts|] == hosts;
    }

    // ---- callbacks of a running scan ----

    method PortOpen(ip: IP, latency: int)
      modifies `hosts, `scanHosts
      ensures View() == HostTable.PortOpen(old(View()), ip, latency)
    {
      var best := latency;
      if ip !in scanHosts || latency < scanHosts[ip] {
        scanHosts := scanHosts[ip := latency];
      } else {
        best := scanHosts[ip];
        assert scanHosts == scanHosts[ip := best];
      }
      UpsertPlaceholderLocked(ip, best);
    }

    method EnrichStart(ips: seq<IP>)
      modifies `hosts, `phase
      ensures View() == HostTable.EnrichStart(old(View()), ips)
    {
      phase := Enriching;
      for i := 0 to |ips|
        invariant phase == Enriching
        invariant hosts == Placeholders(old(hosts), ips[..i], scanHosts)
      {
        var ms := -1;
        if ips[i] in scanHosts {
          ms := scanHosts[ips[i]];
        }
        assert ips[..i + 1][..i] == ips[..i];
        UpsertPlaceholderLocked(ips[i], ms);
      }
      assert ips[..|ips|] == ips;
    }

    method HostReady(host: Host)
      modifies `hosts, `pingStats
      ensures View() == Upsert(old(View()), host)
    {
      for i := 0 to |hosts|
        invariant hosts == old(hosts) && pingStats == old(pingStats)
        invariant forall k | 0 <= k < i :: hosts[k].ip != host.ip
      {
        if hosts[i].ip == host.ip {
          hosts := hosts[i := host];
          if host.latency >= 0 {
            RecordPingLocked(host.ip, host.latency);
          }
          return;
        }
      }
      hosts := hosts + [host];
      if host.latency >= 0 {
        RecordPingLocked(host.ip, host.latency);
      }
    }

    static method FillFirst(ports: seq<Port>, np: Port) returns (r: seq<Port>)
      ensures r == FillPort(ports, np)
    {
      r := ports;
      for j := 0 to |ports|
        invariant r == ports
        invariant forall k | 0 <= k < j :: ports[k].number != np.number
      {
        if r[j].number == np.number {
          if r[j].http == "" && np.http != "" {
            r := r[j := np];
          }
          return;
        }
      }
    }

    method HTTPRefresh(ip: IP, probed: seq<Port>)
      modifies `hosts
      ensures View() == HostTable.HTTPRefresh(old(View()), ip, probed)
    {
      var i := IndexOf(ip);
      if i < 0 {
        return;
      }
      for n := 0 to |probed|
        invariant hosts == old(hosts)[i := old(hosts)[i].(ports := FillPorts(old(hosts)[i].ports, probed[..n]))]
      {
        assert probed[..n + 1][..n] == probed[..n];
        var ports := FillFirst(hosts[i].ports, probed[n]);
        hosts := hosts[i := hosts[i].(ports := ports)];
      }
      assert probed[..|probed|] == probed;
    }

    method Finish(found: seq<Host>, ips: seq<IP>)
      modifies this
      ensures View() == HostTable.Finish(old(View()), found, ips)
    {
      hide Chunks, Sort;
      var chunks := SplitIPChunks(ips, CHUNK);
      phase, watchIPs, ipChunks, smallNet, pingChunk := Watch, ips, chunks, |ips| <= CHUNK, 0;
      hosts := Sort(found, RowLeq);
      autoPing := true;
      RecordRows();
    }

    method ToggleAutoPing()
      modifies `autoPing
      ensures View() == old(View()).(autoPing := !old(autoPing))
    {
      autoPing := !autoPing;
    }

    // ---- runPingTick ----

    method TickSnapshot() returns (batch: seq<IP>, known: set<IP>)
      modifies `pingChunk
      ensures (View(), batch) == HostTable.TickSnapshot(old(View()))
      ensures !rescanning ==> known == set h | h in hosts :: h.ip
    {
      batch, known := [], {};
      if rescanning {
        return;
      }
      for i := 0 to |hosts|
        invariant batch == [] && known == set h | h in hosts[..i] :: h.ip
      {
        assert hosts[..i + 1] == hosts[..i] + [hosts[i]];
        known := known + {hosts[i].ip};
      }
      assert hosts[..|hosts|] == hosts;
      if smallNet {
        batch := watchIPs;
      } else if |ipChunks| > 0 && pingChunk < |ipChunks| {
        batch := ipChunks[pingChunk];
        pingChunk := (pingChunk + 1) % |ipChunks|;
      }
    }

    method TickApply(batch: seq<IP>, pings: map<IP, nat>, arp: map<IP, string>)
      modifies `hosts, `pingStats
      ensures View() == HostTable.TickApply(old(View()), batch, pings, arp)
    {
      hide ApplyARPs, TickRows;
      ApplyARPRows(arp);
      TickAllRows((set ip | ip in batch), pings);
    }

    /** The second loop of runPingTick. */
    method TickAllRows(batchSet: set<IP>, pings: map<IP, nat>)
      modifies `hosts, `pingStats
      ensures (hosts, pingStats) == TickRows(old(hosts), old(pingStats), batchSet, pings)
    {
      hide TickRow, TickRows;
      ghost var rows, stats0 := hosts, pingStats;
      TickRowsStart(rows, stats0, batchSet, pings);
      for i := 0 to |hosts|
        invariant |hosts| == |rows|
        invariant hosts == TickRows(rows[..i], stats0, batchSet, pings).0 + rows[i..]
        invariant pingStats == TickRows(rows[..i], stats0, batchSet, pings).1
      {
        ghost var done := TickRows(rows[..i], stats0, batchSet, pings).0;
        TickRowsSnoc(rows, i, stats0, batchSet, pings);
        UpdateBehind(done, rows, i, rows[i]);
        TickHost(i, batchSet, pings);
        UpdateBehind(done, rows, i, hosts[i]);
      }
      assert rows[..|rows|] == rows && rows[|rows|..] == [];
      assert forall s: seq<Host> :: s + [] == s;
    }

    /** The loop of runPingTick that copies ARP entries into the rows. */
    method ApplyARPRows(arp: map<IP, string>)
      modifies `hosts
      ensures hosts == ApplyARPs(old(hosts), arp)
    {
      for i := 0 to |hosts|
        invariant |hosts| == |old(hosts)|
        invariant forall k | 0 <= k < |hosts| ::
                    hosts[k] == if k < i then ApplyARP(old(hosts)[k], arp) else old(hosts)[k]
      {
        if hosts[i].ip in arp {
          if arp[hosts[i].ip] != "" {
            hosts := hosts[i := hosts[i].(mac := arp[hosts[i].ip])];
          }
        }
      }
    }

    /** The loop body of runPingTick for row i. */
    method TickHost(i: nat, batchSet: set<IP>, pings: map<IP, nat>)
      requires i < |hosts|
      modifies `hosts, `pingStats
      ensures |hosts| == |old(hosts)| && hosts == old(hosts)[i := hosts[i]]
      ensures (hosts[i], pingStats) == TickRow(old(hosts)[i], old(pingStats), batchSet, pings)
    {
      var ip := hosts[i].ip;
      if ip !in batchSet {
        return;
      }
      if ip in pings {
        RecordPingLocked(ip, pings[ip]);
        hosts := hosts[i := hosts[i].(latency := pings[ip])];
        if hosts[i].status == Dead {
          hosts := hosts[i := hosts[i].(status := Unset)];
          if |hosts[i].ports| > 0 {
            hosts := hosts[i := hosts[i].(status := Live)];
          }
        }
      } else if WasLive(hosts[i]) && Misses(pingStats, ip) == 0 {
        var _ := RecordMissLocked(ip);
      }
    }

    // ---- runFastProbe ----

    /** Map iteration gives the suspects in any order, each once. */
    method FastSnapshot() returns (suspects: seq<IP>)
      ensures rescanning || !autoPing ==> suspects == []
      ensures Distinct(suspects)
      ensures !rescanning && autoPing ==> forall ip :: ip in suspects <==> Suspect(pingStats, ip)
    {
      suspects := [];
      if rescanning || !autoPing {
        return;
      }
      var todo := pingStats.Keys;
      while todo != {}
        invariant todo <= pingStats.Keys && Distinct(suspects)
        invariant forall ip :: ip in suspects <==> ip in pingStats.Keys - todo && Suspect(pingStats, ip)
      {
        var ip :| ip in todo;
        todo := todo - {ip};
        assert ip !in suspects;
        if pingStats[ip].misses >= 1 && pingStats[ip].misses < DEAD_AFTER {
          suspects := suspects + [ip];
        }
      }
    }

    method FastApply(suspects: seq<IP>, pings: map<IP, nat>)
      modifies `hosts, `pingStats
      ensures View() == HostTable.FastApply(old(View()), suspects, pings)
    {
      for n := 0 to |suspects|
        invariant (hosts, pingStats) == FastRows(old(hosts), old(pingStats), suspects[..n], pings)
      {
        assert suspects[..n + 1][..n] == suspects[..n];
        FastHost(suspects[n], pings);
      }
      assert suspects[..|suspects|] == suspects;
    }

    /** The loop body of runFastProbe for one suspect. */
    method FastHost(ip: IP, pings: map<IP, nat>)
      modifies `hosts, `pingStats
      ensures (hosts, pingStats) == FastRow(old(hosts), old(pingStats), ip, pings)
    {
      var i := IndexOf(ip);
      if i < 0 {
        return;
      }
      var before := hosts[i];
      if ip in pings {
        RecordPingLocked(ip, pings[ip]);
        hosts := hosts[i := hosts[i].(latency := pings[ip])];
        if hosts[i].status == Dead {
          hosts := hosts[i := hosts[i].(status := Unset)];
          if |hosts[i].ports| > 0 {
            hosts := hosts[i := hosts[i].(status := Live)];
          }
        }
        assert hosts == old(hosts)[i := Revived(old(hosts)[i], pings[ip])];
      } else {
        var n := RecordMissLocked(ip);
        if n >= DEAD_AFTER && hosts[i].status != Dead {
          hosts := hosts[i := hosts[i].(latency := -1)];
          hosts := hosts[i := hosts[i].(status := Dead)];
          assert hosts == old(hosts)[i := old(hosts)[i].(latency := -1, status := Dead)];
        }
      }
      var after := hosts[i];
      if after.status == Dead && before.status != Dead {
        MoveHostToBottomLocked(ip);
      }
    }

    // ---- watch discovery ----

    method AddDiscoverPlaceholder(ip: IP, latency: int)
      modifies `hosts, `pingStats
      ensures View() == AddPlaceholder(old(View()), ip, latency)
    {
      var i := IndexOf(ip);
      if i >= 0 {
        return;
      }
      var status := Unset;
      if latency >= 0 {
        status := Live;
      }
      hosts := hosts + [Host(ip, latency, status, "", [], "")];
      if latency >= 0 {
        RecordPingLocked(ip, latency);
      }
    }

    method UpsertHost(host: Host)
      modifies `hosts, `pingStats
      ensures View() == Upsert(old(View()), host)
    {
      for i := 0 to |hosts|
        invariant hosts == old(hosts) && pingStats == old(pingStats)
        invariant forall k | 0 <= k < i :: hosts[k].ip != host.ip
      {
        if hosts[i].ip == host.ip {
          hosts := hosts[i := host];
          RecordPingLocked(host.ip, host.latency);
          return;
        }
      }
      RecordPingLocked(host.ip, host.latency);
      hosts := hosts + [host];
    }

    method RemoveHost(ip: IP)
      modifies `hosts, `pingStats
      ensures View() == HostTable.RemoveHost(old(View()), ip)
    {
      for i := 0 to |hosts|
        invariant hosts == old(hosts) && pingStats == old(pingStats)
        invariant forall k | 0 <= k < i :: hosts[k].ip != ip || hosts[k].mac != "" || hosts[k].ports != []
      {
        if hosts[i].ip == ip && hosts[i].mac == "" && |hosts[i].ports| == 0 {
          hosts := hosts[..i] + hosts[i + 1..];
          pingStats := pingStats - {ip};
          return;
        }
      }
    }

    // ---- rescans ----

    /** triggerRescan; `started` says that the scan goroutine was started. */
    method TriggerRescan() returns (started: bool)
      modifies `rescanning, `phase, `scanHosts
      ensures View() == HostTable.TriggerRescan(old(View()))
      ensures started <==> !old(rescanning) && rescanning
    {
      if rescanning || phase == Scanning || phase == Enriching {
        return false;
      }
      if phase != Watch && phase != Done {
        return false;
      }
      rescanning := true;
      phase := Scanning;
      scanHosts := map[];
      return true;
    }

    method ApplyRescanResults(found: seq<Host>)
      modifies `hosts, `pingStats, `rescanning, `phase
      ensures View() == ApplyRescan(old(View()), found)
    {
      rescanning := false;
      phase := Watch;
      hosts := ReconcileRescanHostsLocked(found);
      RecordRows();
    }

    method ReconcileRescanHostsLocked(found: seq<Host>) returns (next: seq<Host>)
      ensures next == Reconcile(hosts, found)
    {
      var byIP := IndexByIP(found);
      hide LastOf;
      next := [];
      var dropped: seq<Host> := [];
      var seen: set<IP> := {};
      for i := 0 to |hosts|
        invariant next == Kept(hosts[..i], found) && dropped == Dropped(hosts[..i], found)
        invariant forall ip :: ip in seen <==> ip in byIP && exists k :: 0 <= k < i && hosts[k].ip == ip
      {
        assert hosts[..i + 1][..i] == hosts[..i];
        var row := hosts[i];
        assert LastOf(found, row.ip) == Lookup(byIP, row.ip);
        if row.ip in byIP {
          next := next + [byIP[row.ip]];
          seen := seen + {row.ip};
        } else {
          dropped := dropped + [row.(status := Dead, latency := -1)];
        }
      }
      assert hosts[..|hosts|] == hosts;
      next := next + dropped;
      next := AppendUnseen(next, found, seen);
    }

    static method IndexByIP(found: seq<Host>) returns (byIP: map<IP, Host>)
      ensures forall ip :: LastOf(found, ip) == Lookup(byIP, ip)
      ensures forall h | h in found :: h.ip in byIP
    {
      byIP := map[];
      for k := 0 to |found|
        invariant forall ip :: LastOf(found[..k], ip) == Lookup(byIP, ip)
        invariant forall h | h in found[..k] :: h.ip in byIP
      {
        assert found[..k + 1][..k] == found[..k];
        byIP := byIP[found[k].ip := found[k]];
      }
      assert found[..|found|] == found;
    }

    method AppendUnseen(front: seq<Host>, found: seq<Host>, seen: set<IP>) returns (next: seq<Host>)
      requires forall h | h in found :: h.ip in seen <==> RowOf(hosts, h.ip).Some?
      ensures next == front + Added(hosts, found)
    {
      next := front;
      for k := 0 to |found|
        invariant next == front + Added(hosts, found[..k])
      {
        assert found[..k + 1][..k] == found[..k];
        if found[k].ip !in seen {
          next := next + [found[k]];
        }
      }
      assert found[..|found|] == found;
    }
  }

  function Lookup(m: map<IP, Host>, ip: IP): (h: Option<Host>) {
    if ip in m then Some(m[ip]) else None
  }
}
