/**
 * What the user sees of a step in the watch phase: the new row of every host, field by field, the
 * order of the rows, and the state the header shows.
 */
module TableSteps {
  import opened Wrappers
  import opened Sorting
  import opened PingStats
  import opened HostTable
  import opened HostCells
  import opened WatchRuns

  // ---- the rows ----

  /** A row that got a reply. */
  predicate Answers(before: Host, after: Host, ms: nat) {
    && after == before.(latency := ms, status := after.status)
    && after.status == if before.status != Dead then before.status else if before.ports == [] then Unset else Live
  }

  /** The row of a host before and after its address was announced or a port of it answered. */
  predicate Places(ip: IP, before: Option<Host>, after: Option<Host>, ms: int) {
    && after.Some?
    && match before
       case None => after.value == Host(ip, ms, Unset, "", [], "")
       case Some(h) =>
         after.value == h.(latency := if 0 <= ms && (h.latency < 0 || ms < h.latency) then ms else h.latency)
  }

  ghost predicate RowAfter(s: Sys, a: Action, ip: IP, before: Option<Host>, after: Option<Host>)
    requires Enabled(s, a)
  {
    match a
    case TickEnd(pings, arp) =>
      && before.Some? == after.Some?
      && (before.Some? ==>
            var known := before.value.(mac := if ip in arp && arp[ip] != "" then arp[ip] else before.value.mac);
            if ip in s.tick.value && ip in pings then Answers(known, after.value, pings[ip]) else after.value == known)
    case FastEnd(pings) =>
      && before.Some? == after.Some?
      && (before.Some? ==>
            if ip !in s.fast.value then after == before
            else if ip in pings then Answers(before.value, after.value, pings[ip])
            else if Dies(s, ip) then after.value == before.value.(status := Dead, latency := -1)
            else after == before)
    case Noticed(i, ms) =>
      after == if i != ip || before.Some? then before
               else Some(Host(ip, ms, if ms < 0 then Unset else Live, "", [], ""))
    case Resolved(host) => after == if host.ip == ip then Some(host) else before
    case Ready(host) => after == if host.ip == ip then Some(host) else before
    case Vanished(i) =>
      after == if i == ip && before.Some? && before.value.mac == "" && before.value.ports == [] then None else before
    case Probed(i, ports) =>
      && before.Some? == after.Some?
      && (before.Some? ==>
            after.value == before.value.(ports := if i == ip then FillPorts(before.value.ports, ports)
                                                  else before.value.ports))
    case Opened(i, ms) =>
      var best := if ip in s.t.scanHosts && s.t.scanHosts[ip] <= ms then s.t.scanHosts[ip] else ms;
      if i == ip then Places(ip, before, after, best) else after == before
    case Enriched(ips) =>
      if ip in ips then Places(ip, before, after, if ip in s.t.scanHosts then s.t.scanHosts[ip] else -1)
      else after == before
    case RescanEnd(found) =>
      && (forall h | h in found && h.ip == ip :: after == Some(h))
      && ((forall h | h in found :: h.ip != ip) ==>
            if before.None? then after.None? else after == Some(before.value.(status := Dead, latency := -1)))
    case _ => after == before
  }

  /** The next miss is the host's tenth, or a later one, and it is not dead yet. */
  predicate Dies(s: Sys, ip: IP) {
    Misses(s.t.stats, ip) >= 9 && RowOf(s.t.hosts, ip).Some? && RowOf(s.t.hosts, ip).value.status != Dead
  }

  lemma CellShows(s: Sys, a: Action, ip: IP, c: Cell)
    requires Enabled(s, a) && c.row == RowOf(s.t.hosts, ip) && CellMisses(c.stats) == Misses(s.t.stats, ip)
    requires c.row.Some? ==> c.row.value.ip == ip
    ensures RowAfter(s, a, ip, c.row, StepCell(s, a, c, ip).row)
  {
    if a.RescanEnd? {
      FoundRow(a.found, ip);
    }
    hide RowOf, DistinctRows, Misses, FillPorts, Pinged, Missed;
  }

  /** Each step leaves every row as it was, but for the fields it has news of. */
  lemma StepShows(s: Sys, a: Action, ip: IP)
    requires Inv(s) && Enabled(s, a)
    ensures RowAfter(s, a, ip, RowOf(s.t.hosts, ip), RowOf(Apply(s, a).t.hosts, ip))
  {
    StepActs(s, a, ip);
    RowKeepsAddress(s.t.hosts, ip);
    hide Inv, Apply, RowOf, Enabled, RowAfter, StepCell;
    CellShows(s, a, ip, At(s.t, ip));
  }

  lemma RowKeepsAddress(hosts: seq<Host>, ip: IP)
    ensures RowOf(hosts, ip).Some? ==> RowOf(hosts, ip).value.ip == ip
  {
  }

  lemma FoundRow(found: seq<Host>, ip: IP)
    requires DistinctRows(found)
    ensures forall h | h in found && h.ip == ip :: RowOf(found, ip) == Some(h)
    ensures (forall h | h in found :: h.ip != ip) ==> RowOf(found, ip).None?
  {
  }

  // ---- their order ----

  /** The rows keep their places, and new ones come behind them. */
  ghost predicate Grows(before: seq<Host>, after: seq<Host>) {
    |before| <= |after| && forall k | 0 <= k < |before| :: after[k].ip == before[k].ip
  }

  lemma PutGrows(hosts: seq<Host>, h: Host)
    ensures Grows(hosts, PutRow(hosts, h)) && |PutRow(hosts, h)| <= |hosts| + 1
  {
  }

  lemma {:induction false} PlacesGrow(hosts: seq<Host>, ips: seq<IP>, scanHosts: map<IP, int>)
    ensures Grows(hosts, Placeholders(hosts, ips, scanHosts))
  {
    if ips != [] {
      PlacesGrow(hosts, ips[..|ips| - 1], scanHosts);
    }
  }

  lemma TickKeepsPlaces(t: Table, batch: seq<IP>, pings: map<IP, nat>, arp: map<IP, string>)
    ensures var r := TickApply(t, batch, pings, arp).hosts; Grows(t.hosts, r) && |r| == |t.hosts|
  {
    TickKeepsAddresses(ApplyARPs(t.hosts, arp), t.stats, (set x | x in batch), pings);
    hide TickRows;
  }

  /** No step but a fast probe, a removal and the end of a rescan moves a row. */
  lemma StepKeepsPlaces(s: Sys, a: Action)
    requires Enabled(s, a) && !a.FastEnd? && !a.Vanished? && !a.RescanEnd?
    ensures Grows(s.t.hosts, Apply(s, a).t.hosts)
  {
    hide PutRow, Placeholders, TickApply, Grows;
    if a.TickEnd? {
      TickKeepsPlaces(s.t, s.tick.value, a.pings, a.arp);
    } else if a.Ready? || a.Resolved? {
      PutGrows(s.t.hosts, a.host);
    } else if a.Enriched? {
      PlacesGrow(s.t.hosts, a.ips, s.t.scanHosts);
    } else {
      OthersGrow(s, a);
    }
  }

  lemma OthersGrow(s: Sys, a: Action)
    requires Enabled(s, a) && !a.FastEnd? && !a.Vanished? && !a.RescanEnd?
    requires !a.TickEnd? && !a.Ready? && !a.Resolved? && !a.Enriched?
    ensures Grows(s.t.hosts, Apply(s, a).t.hosts)
  {
    hide FillPorts, DistinctRows, RowOf, Suspect, Addresses, RecordPing;
  }

  /** A removal takes one row out and leaves the others in order. */
  lemma RemovalKeepsOrder(s: Sys, ip: IP)
    requires Inv(s) && Enabled(s, Vanished(ip))
    ensures var (hosts, r) := (s.t.hosts, Apply(s, Vanished(ip)).t.hosts);
            r == if RowOf(r, ip).None? then Without(hosts, ip) else hosts
  {
    var i := BareIndex(s.t.hosts, ip);
    if i >= 0 {
      WithoutAt(s.t.hosts, i, ip);
      WithoutGone(s.t.hosts, ip);
    } else {
      if Index(s.t.hosts, ip) < 0 {
        WithoutAbsent(s.t.hosts, ip);
      }
    }
    hide BareIndex;
  }

  lemma {:induction false} WithoutGone(hosts: seq<Host>, ip: IP)
    ensures RowOf(Without(hosts, ip), ip).None?
  {
    if hosts != [] {
      WithoutGone(hosts[1..], ip);
    }
  }

  /** A fast probe without a reply from the host kills it. */
  predicate Killed(s: Sys, pings: map<IP, nat>, ip: IP) {
    ip !in pings && Dies(s, ip)
  }

  /** Where x stands relative to y once the hosts killed among the first k suspects are at the bottom. */
  predicate Above(s: Sys, pings: map<IP, nat>, done: seq<IP>, x: IP, y: IP) {
    var (dx, dy) := (x in done && Killed(s, pings, x), y in done && Killed(s, pings, y));
    if dx && dy then Place(done, x) < Place(done, y)
    else if dx != dy then dy
    else Index(s.t.hosts, x) < Index(s.t.hosts, y)
  }

  /** The first place of an element. */
  function Place(s: seq<IP>, x: IP): (i: nat)
    requires x in s
    ensures i < |s| && s[i] == x && forall k | 0 <= k < i :: s[k] != x
  {
    if s[0] == x then 0 else 1 + Place(s[1..], x)
  }

  lemma MovedOrder(hosts: seq<Host>, ip: IP, x: IP, y: IP)
    requires DistinctRows(hosts) && Index(hosts, ip) >= 0 && Index(hosts, x) >= 0 && Index(hosts, y) >= 0 && x != y
    ensures var r := MoveToBottom(hosts, ip);
            Index(r, x) < Index(r, y) <==> if x == ip then false else if y == ip then true
                                           else Index(hosts, x) < Index(hosts, y)
    ensures Index(MoveToBottom(hosts, ip), x) >= 0 && Index(MoveToBottom(hosts, ip), y) >= 0
  {
    MovedIndex(hosts, ip, x);
    MovedIndex(hosts, ip, y);
    hide MoveToBottom;
  }

  lemma MovedIndex(hosts: seq<Host>, ip: IP, x: IP)
    requires DistinctRows(hosts) && Index(hosts, ip) >= 0 && Index(hosts, x) >= 0
    ensures var (i, j) := (Index(hosts, ip), Index(hosts, x));
            Index(MoveToBottom(hosts, ip), x) == if j < i then j else if j == i then |hosts| - 1 else j - 1
  {
    var i, j := Index(hosts, ip), Index(hosts, x);
    var r := MoveToBottom(hosts, ip);
    MovedRow(hosts, ip, x);
    assert forall k | 0 <= k < |r| ::
             r[k] == if k < i then hosts[k] else if k < |hosts| - 1 then hosts[k + 1] else hosts[i];
    var at := if j < i then j else if j == i then |hosts| - 1 else j - 1;
    assert r[at] == hosts[j];
    hide MoveToBottom;
  }

  lemma SameIndex(a: seq<Host>, b: seq<Host>, ip: IP)
    requires |a| == |b| && forall k | 0 <= k < |a| :: a[k].ip == b[k].ip
    ensures Index(a, ip) == Index(b, ip)
  {
  }

  /** One suspect. */
  lemma FastRowOrder(hosts: seq<Host>, stats: map<IP, Stats>, ip: IP, pings: map<IP, nat>, x: IP, y: IP)
    requires DistinctRows(hosts) && Index(hosts, x) >= 0 && Index(hosts, y) >= 0 && x != y
    ensures var r := FastRow(hosts, stats, ip, pings).0;
            var kills := RowOf(hosts, ip).Some? && ip !in pings && Misses(stats, ip) >= 9
                         && RowOf(hosts, ip).value.status != Dead;
            && Index(r, x) >= 0 && Index(r, y) >= 0
            && (Index(r, x) < Index(r, y) <==> if kills && (x == ip || y == ip) then y == ip
                                               else Index(hosts, x) < Index(hosts, y))
  {
    var i := Index(hosts, ip);
    if i >= 0 {
      if ip in pings {
        var r := hosts[i := Revived(hosts[i], pings[ip])];
        SameIndex(hosts, r, x);
        SameIndex(hosts, r, y);
      } else {
        var dead := hosts[i].(latency := -1, status := Dead);
        var r := hosts[i := dead];
        SameIndex(hosts, r, x);
        SameIndex(hosts, r, y);
        SameIndex(hosts, r, ip);
        RowUpdated(hosts, i, dead, ip);
        MovedOrder(r, ip, x, y);
      }
    }
    hide Index, MoveToBottom, DistinctRows;
  }

  lemma {:induction false} FastRowsOrder(s: Sys, done: seq<IP>, pings: map<IP, nat>, x: IP, y: IP)
    requires DistinctRows(s.t.hosts) && Distinct(done) && x != y
    requires Index(s.t.hosts, x) >= 0 && Index(s.t.hosts, y) >= 0
    ensures var r := FastRows(s.t.hosts, s.t.stats, done, pings).0;
            Index(r, x) >= 0 && Index(r, y) >= 0 && (Index(r, x) < Index(r, y) <==> Above(s, pings, done, x, y))
    decreases |done|
  {
    if done != [] {
      var front, last := done[..|done| - 1], done[|done| - 1];
      assert done == front + [last] && last !in front;
      FastRowsOrder(s, front, pings, x, y);
      FastRowsAct(s.t.hosts, s.t.stats, front, pings, last);
      var (rows, st) := FastRows(s.t.hosts, s.t.stats, front, pings);
      FastRowOrder(rows, st, last, pings, x, y);
      assert CellOf(rows, st, last) == CellOf(s.t.hosts, s.t.stats, last);
      assert Misses(st, last) == Misses(s.t.stats, last) && RowOf(rows, last) == RowOf(s.t.hosts, last);
      hide FastRow, FastRows, RowOf, Misses, Index, DistinctRows;
      AboveNext(s, pings, front, last, x, y);
    }
  }

  lemma AboveNext(s: Sys, pings: map<IP, nat>, front: seq<IP>, last: IP, x: IP, y: IP)
    requires last !in front && x != y && Distinct(front)
    ensures Above(s, pings, front + [last], x, y)
       <==> if Killed(s, pings, last) && (x == last || y == last) then y == last else Above(s, pings, front, x, y)
  {
    hide Index, Killed;
    var done := front + [last];
    forall z | z in front ensures Place(done, z) == Place(front, z) {
      assert done[Place(front, z)] == z;
      assert forall k | 0 <= k < |front| :: done[k] == front[k];
    }
    assert done[|front|] == last;
  }

  /** The hosts a fast probe kills go to the bottom, in the order they were probed; the others keep theirs. */
  lemma FastProbeOrder(s: Sys, pings: map<IP, nat>, x: IP, y: IP)
    requires Inv(s) && Enabled(s, FastEnd(pings)) && x != y
    requires RowOf(s.t.hosts, x).Some? && RowOf(s.t.hosts, y).Some?
    ensures var r := Apply(s, FastEnd(pings)).t.hosts;
            Index(r, x) < Index(r, y) <==> Above(s, pings, s.fast.value, x, y)
  {
    FastRowsOrder(s, s.fast.value, pings, x, y);
    hide FastRows, Above, DistinctRows, Distinct;
  }

  // ---- the header ----

  /** A rescan begins in the watch phase only, forgets the latencies of the scan before, and ends there. */
  lemma StepHeader(s: Sys, a: Action)
    requires Inv(s) && Enabled(s, a)
    ensures var t := Apply(s, a).t;
            var begins := a.RescanStart? && s.t.phase == Watch;
            && t.phase == (if begins then Scanning else if a.Enriched? then Enriching
                           else if a.RescanEnd? then Watch else s.t.phase)
            && t.rescanning == (begins || (s.t.rescanning && !a.RescanEnd?))
            && t.autoPing == (s.t.autoPing != a.Toggle?)
            && (begins ==> t.scanHosts == map[])
            && (a.Opened? ==> t.scanHosts.Keys == s.t.scanHosts.Keys + {a.ip}
                              && forall ip | ip in t.scanHosts ::
                                   t.scanHosts[ip]
                                   == if ip == a.ip && (ip !in s.t.scanHosts || a.ms < s.t.scanHosts[ip])
                                      then a.ms else s.t.scanHosts[ip])
            && (!begins && !a.Opened? ==> t.scanHosts == s.t.scanHosts)
  {
    hide TickApply, FastApply, AddPlaceholder, Upsert, RemoveHost, HTTPRefresh, RowOf, DistinctRows, Distinct;
    hide Chunks, Placeholders, UpsertPlaceholder, Reconcile, RecordAll, Addresses, Suspect, At;
  }
}
