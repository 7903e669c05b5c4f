/**
 * The table as a collection of independent hosts. As long as no address has two rows, every step of
 * HostTable acts on each host by itself: the new row and statistics of an address depend on nothing
 * but its old ones. The cell functions below say how.
 */
module HostCells {
  import opened Wrappers
  import opened Sorting
  import opened PingStats
  import opened HostTable

  /** All the table knows of one address. */
  datatype Cell = Cell(row: Option<Host>, stats: Option<Stats>)

  function CellOf(hosts: seq<Host>, stats: map<IP, Stats>, ip: IP): (c: Cell) {
    Cell(RowOf(hosts, ip), if ip in stats then Some(stats[ip]) else None)
  }

  function At(t: Table, ip: IP): (c: Cell) {
    CellOf(t.hosts, t.stats, ip)
  }

  ghost predicate DistinctRows(hosts: seq<Host>) {
    forall i, j | 0 <= i < j < |hosts| :: hosts[i].ip != hosts[j].ip
  }

  function CellMisses(s: Option<Stats>): (n: nat) {
    if s.Some? then s.value.misses else 0
  }

  // ---- what the steps do to one cell ----

  function Pinged(s: Option<Stats>, ms: int): (r: Option<Stats>) {
    if ms < 0 then s else Some(WithPing(if s.Some? then s.value else FRESH, ms))
  }

  function Missed(s: Option<Stats>): (r: Option<Stats>) {
    Some(WithMiss(if s.Some? then s.value else FRESH))
  }

  function PlaceCell(c: Cell, ip: IP, ms: int): (r: Cell) {
    match c.row
    case None => c.(row := Some(Placeholder(ip, ms, Unset)))
    case Some(h) => if ms >= 0 && (h.latency < 0 || ms < h.latency) then c.(row := Some(h.(latency := ms))) else c
  }

  function PutCell(c: Cell, host: Host): (r: Cell) {
    Cell(Some(host), Pinged(c.stats, host.latency))
  }

  function HTTPCell(c: Cell, probed: seq<Port>): (r: Cell) {
    if c.row.None? then c else c.(row := Some(c.row.value.(ports := FillPorts(c.row.value.ports, probed))))
  }

  function DiscoverCell(c: Cell, ip: IP, ms: int): (r: Cell) {
    if c.row.Some? then c
    else Cell(Some(Placeholder(ip, ms, if ms >= 0 then Live else Unset)), Pinged(c.stats, ms))
  }

  function RemoveCell(c: Cell): (r: Cell) {
    if c.row.Some? && c.row.value.mac == "" && c.row.value.ports == [] then Cell(None, None) else c
  }

  /** An open port, a latency above 0 ms, or a status other than "discovered". */
  predicate Seen(h: Host) {
    h.ports != [] || h.latency > 0 || (h.status != Unset && h.status != Discovered)
  }

  function TickCell(c: Cell, ip: IP, inBatch: bool, pings: map<IP, nat>, arp: map<IP, string>): (r: Cell) {
    if c.row.None? then c
    else
      var h := ApplyARP(c.row.value, arp);
      if !inBatch then Cell(Some(h), c.stats)
      else if ip in pings then Cell(Some(Revived(h, pings[ip])), Pinged(c.stats, pings[ip]))
      else Cell(Some(h), if Seen(h) && CellMisses(c.stats) == 0 then Missed(c.stats) else c.stats)
  }

  function FastCell(c: Cell, ip: IP, pings: map<IP, nat>): (r: Cell) {
    if c.row.None? then c
    else if ip in pings then Cell(Some(Revived(c.row.value, pings[ip])), Pinged(c.stats, pings[ip]))
    else
      var s := Missed(c.stats);
      if s.value.misses >= DEAD_AFTER && c.row.value.status != Dead
      then Cell(Some(c.row.value.(latency := -1, status := Dead)), s)
      else Cell(c.row, s)
  }

  /** A rescan replaces the row of a host it found and marks the row of any other dead. */
  function RescanCell(c: Cell, found: Option<Host>): (r: Cell) {
    var row := if found.Some? then found
               else if c.row.Some? then Some(c.row.value.(status := Dead, latency := -1))
               else None;
    Cell(row, if row.Some? then Pinged(c.stats, row.value.latency) else c.stats)
  }

  // ---- row lemmas ----

  lemma RowUpdated(hosts: seq<Host>, i: nat, h: Host, ip: IP)
    requires DistinctRows(hosts) && i < |hosts| && h.ip == hosts[i].ip
    ensures DistinctRows(hosts[i := h])
    ensures RowOf(hosts[i := h], ip) == if ip == h.ip then Some(h) else RowOf(hosts, ip)
  {
    var after := hosts[i := h];
    assert forall k | 0 <= k < |hosts| :: after[k].ip == hosts[k].ip;
    assert after[i] == h;
    hide DistinctRows;
  }

  lemma RowAppended(hosts: seq<Host>, h: Host, ip: IP)
    requires DistinctRows(hosts) && RowOf(hosts, h.ip).None?
    ensures DistinctRows(hosts + [h])
    ensures RowOf(hosts + [h], ip) == if ip == h.ip then Some(h) else RowOf(hosts, ip)
  {
    var after := hosts + [h];
    assert after[|hosts|] == h && forall k | 0 <= k < |hosts| :: after[k] == hosts[k];
  }

  lemma RowDeleted(hosts: seq<Host>, i: nat, ip: IP)
    requires DistinctRows(hosts) && i < |hosts|
    ensures var after := hosts[..i] + hosts[i + 1..];
            && DistinctRows(after)
            && RowOf(after, ip) == (if ip == hosts[i].ip then None else RowOf(hosts, ip))
  {
    var after := hosts[..i] + hosts[i + 1..];
    assert forall k | 0 <= k < |after| :: after[k] == if k < i then hosts[k] else hosts[k + 1];
    var j := Index(hosts, ip);
    if j >= 0 && j != i {
      assert after[if j < i then j else j - 1] == hosts[j];
    }
  }

  lemma MovedRow(hosts: seq<Host>, ip: IP, other: IP)
    requires DistinctRows(hosts)
    ensures DistinctRows(MoveToBottom(hosts, ip)) && RowOf(MoveToBottom(hosts, ip), other) == RowOf(hosts, other)
  {
    var i := Index(hosts, ip);
    if i >= 0 {
      var front := hosts[..i] + hosts[i + 1..];
      RowDeleted(hosts, i, other);
      RowDeleted(hosts, i, ip);
      hide DistinctRows;
      RowAppended(front, hosts[i], other);
      assert MoveToBottom(hosts, ip) == front + [hosts[i]];
    }
  }

  /** moveHostToBottomLocked keeps every row and the order of the others; the host comes last. */
  lemma MovedToBottom(hosts: seq<Host>, ip: IP)
    requires DistinctRows(hosts)
    ensures multiset(MoveToBottom(hosts, ip)) == multiset(hosts)
    ensures MoveToBottom(hosts, ip)
         == Without(hosts, ip) + if RowOf(hosts, ip).Some? then [RowOf(hosts, ip).value] else []
  {
    hide Without;
    var i := Index(hosts, ip);
    if i >= 0 {
      WithoutAt(hosts, i, ip);
      hide DistinctRows, Index;
      TakenOut(hosts, i);
    } else {
      WithoutAbsent(hosts, ip);
    }
  }

  /** The other rows, in order. */
  function Without(hosts: seq<Host>, ip: IP): (r: seq<Host>) {
    if hosts == [] then []
    else if hosts[0].ip == ip then Without(hosts[1..], ip)
    else [hosts[0]] + Without(hosts[1..], ip)
  }

  lemma {:induction false} WithoutAbsent(hosts: seq<Host>, ip: IP)
    requires forall k | 0 <= k < |hosts| :: hosts[k].ip != ip
    ensures Without(hosts, ip) == hosts
  {
    if hosts != [] {
      WithoutAbsent(hosts[1..], ip);
    }
  }

  lemma {:induction false} WithoutAt(hosts: seq<Host>, i: nat, ip: IP)
    requires i < |hosts| && forall k | 0 <= k < |hosts| :: hosts[k].ip == ip <==> k == i
    ensures Without(hosts, ip) == hosts[..i] + hosts[i + 1..]
  {
    if i == 0 {
      WithoutAbsent(hosts[1..], ip);
    } else {
      WithoutAt(hosts[1..], i - 1, ip);
      assert hosts[..i] == [hosts[0]] + hosts[1..][..i - 1] && hosts[1..][i..] == hosts[i + 1..];
    }
  }

  // ---- single-row steps ----

  lemma PlaceActs(hosts: seq<Host>, stats: map<IP, Stats>, ip: IP, ms: int, other: IP)
    requires DistinctRows(hosts)
    ensures DistinctRows(UpsertPlaceholder(hosts, ip, ms))
    ensures CellOf(UpsertPlaceholder(hosts, ip, ms), stats, other)
         == if other == ip then PlaceCell(CellOf(hosts, stats, ip), ip, ms) else CellOf(hosts, stats, other)
  {
    var i := Index(hosts, ip);
    if i < 0 {
      RowAppended(hosts, Placeholder(ip, ms, Unset), other);
    } else {
      RowUpdated(hosts, i, hosts[i].(latency := ms), other);
    }
  }

  /** The rows EnrichStart adds or improves; doing it twice for one address changes nothing more. */
  lemma {:induction false} PlacesAct(hosts: seq<Host>, stats: map<IP, Stats>, ips: seq<IP>, scanHosts: map<IP, int>,
                                     other: IP)
    requires DistinctRows(hosts)
    ensures DistinctRows(Placeholders(hosts, ips, scanHosts))
    ensures CellOf(Placeholders(hosts, ips, scanHosts), stats, other)
         == if other in ips
            then PlaceCell(CellOf(hosts, stats, other), other, if other in scanHosts then scanHosts[other] else -1)
            else CellOf(hosts, stats, other)
  {
    if ips != [] {
      var front, last := ips[..|ips| - 1], ips[|ips| - 1];
      PlacesAct(hosts, stats, front, scanHosts, other);
      assert ips == front + [last];
      hide Placeholders, CellOf;
      assert Placeholders(hosts, ips, scanHosts)
          == UpsertPlaceholder(Placeholders(hosts, front, scanHosts), last,
                               if last in scanHosts then scanHosts[last] else -1)
        by { PlaceholdersStep(hosts, front, last, ips, scanHosts); }
      PlaceActs(Placeholders(hosts, front, scanHosts), stats, last,
                if last in scanHosts then scanHosts[last] else -1, other);
    }
  }

  lemma PlaceholdersStep(hosts: seq<Host>, front: seq<IP>, last: IP, ips: seq<IP>, scanHosts: map<IP, int>)
    requires ips == front + [last]
    ensures Placeholders(hosts, ips, scanHosts)
         == UpsertPlaceholder(Placeholders(hosts, front, scanHosts), last,
                              if last in scanHosts then scanHosts[last] else -1)
  {
    assert ips[..|ips| - 1] == front;
  }

  lemma UpsertActs(t: Table, host: Host, other: IP)
    requires DistinctRows(t.hosts)
    ensures DistinctRows(Upsert(t, host).hosts)
    ensures At(Upsert(t, host), other) == if other == host.ip then PutCell(At(t, host.ip), host) else At(t, other)
  {
    var i := Index(t.hosts, host.ip);
    if i < 0 {
      RowAppended(t.hosts, host, other);
    } else {
      RowUpdated(t.hosts, i, host, other);
    }
  }

  lemma HTTPActs(t: Table, ip: IP, probed: seq<Port>, other: IP)
    requires DistinctRows(t.hosts)
    ensures DistinctRows(HTTPRefresh(t, ip, probed).hosts)
    ensures At(HTTPRefresh(t, ip, probed), other) == if other == ip then HTTPCell(At(t, ip), probed) else At(t, other)
  {
    var i := Index(t.hosts, ip);
    if i >= 0 {
      RowUpdated(t.hosts, i, t.hosts[i].(ports := FillPorts(t.hosts[i].ports, probed)), other);
    }
  }

  lemma DiscoverActs(t: Table, ip: IP, ms: int, other: IP)
    requires DistinctRows(t.hosts)
    ensures DistinctRows(AddPlaceholder(t, ip, ms).hosts)
    ensures At(AddPlaceholder(t, ip, ms), other)
         == if other == ip then DiscoverCell(At(t, ip), ip, ms) else At(t, other)
  {
    if Index(t.hosts, ip) < 0 {
      RowAppended(t.hosts, Placeholder(ip, ms, if ms >= 0 then Live else Unset), other);
    }
  }

  lemma RemoveActs(t: Table, ip: IP, other: IP)
    requires DistinctRows(t.hosts)
    ensures DistinctRows(RemoveHost(t, ip).hosts)
    ensures At(RemoveHost(t, ip), other) == if other == ip then RemoveCell(At(t, ip)) else At(t, other)
  {
    var i := BareIndex(t.hosts, ip);
    if i >= 0 {
      RowDeleted(t.hosts, i, other);
    } else if Index(t.hosts, ip) >= 0 {
      assert t.hosts[Index(t.hosts, ip)].ip == ip;
    }
  }

  // ---- the tick ----

  lemma {:induction false} TickKeepsAddresses(hosts: seq<Host>, stats: map<IP, Stats>, batch: set<IP>, pings: map<IP,
                                              nat>)
    ensures var rows := TickRows(hosts, stats, batch, pings).0;
            |rows| == |hosts| && forall k | 0 <= k < |hosts| :: rows[k].ip == hosts[k].ip
  {
    if hosts != [] {
      TickKeepsAddresses(hosts[..|hosts| - 1], stats, batch, pings);
    }
  }

  /** The tick's row for h, seen from the address ip. */
  lemma TickRowActs(h: Host, rows: seq<Host>, stats: map<IP, Stats>, batch: set<IP>, pings: map<IP, nat>, ip: IP)
    requires DistinctRows(rows) && RowOf(rows, h.ip).None?
    ensures var (row, st) := TickRow(h, stats, batch, pings);
            && DistinctRows(rows + [row])
            && CellOf(rows + [row], st, ip)
            == (if ip == h.ip then TickCell(CellOf([h], stats, ip), ip, ip in batch, pings, map[])
                else CellOf(rows, stats, ip))
  {
    var (row, st) := TickRow(h, stats, batch, pings);
    assert row.ip == h.ip && RowOf([h], h.ip) == Some(h);
    RowAppended(rows, row, ip);
    hide DistinctRows, RowOf;
  }

  lemma {:induction false} RowsTicked(hosts: seq<Host>, stats: map<IP, Stats>, batch: set<IP>, pings: map<IP, nat>,
                                      ip: IP)
    requires DistinctRows(hosts)
    ensures var (rows, st) := TickRows(hosts, stats, batch, pings);
            && DistinctRows(rows)
            && CellOf(rows, st, ip) == TickCell(CellOf(hosts, stats, ip), ip, ip in batch, pings, map[])
  {
    if hosts != [] {
      var front, last := hosts[..|hosts| - 1], hosts[|hosts| - 1];
      RowsTicked(front, stats, batch, pings, ip);
      RowsTicked(front, stats, batch, pings, last.ip);
      TickKeepsAddresses(front, stats, batch, pings);
      assert hosts == front + [last] && RowOf(front, last.ip).None?;
      var (rows, st) := TickRows(front, stats, batch, pings);
      assert RowOf(rows, last.ip).None?;
      RowAppended(front, last, ip);
      assert RowOf([last], last.ip) == Some(last);
      hide DistinctRows, RowOf, TickRow, TickCell;
      TickRowActs(last, rows, st, batch, pings, ip);
    }
  }

  lemma ARPActs(hosts: seq<Host>, arp: map<IP, string>, ip: IP)
    requires DistinctRows(hosts)
    ensures DistinctRows(ApplyARPs(hosts, arp))
    ensures RowOf(ApplyARPs(hosts, arp), ip)
         == if RowOf(hosts, ip).Some? then Some(ApplyARP(RowOf(hosts, ip).value, arp)) else None
  {
    var after := ApplyARPs(hosts, arp);
    assert forall k | 0 <= k < |hosts| :: after[k].ip == hosts[k].ip;
  }

  lemma TickActs(t: Table, batch: seq<IP>, pings: map<IP, nat>, arp: map<IP, string>, ip: IP)
    requires DistinctRows(t.hosts)
    ensures DistinctRows(TickApply(t, batch, pings, arp).hosts)
    ensures At(TickApply(t, batch, pings, arp), ip) == TickCell(At(t, ip), ip, ip in batch, pings, arp)
  {
    hide TickRows, ApplyARPs, DistinctRows, RowOf;
    ARPActs(t.hosts, arp, ip);
    RowsTicked(ApplyARPs(t.hosts, arp), t.stats, (set x | x in batch), pings, ip);
    TickCellARP(At(t, ip), ip, ip in batch, pings, arp);
  }

  lemma TickCellARP(c: Cell, ip: IP, inBatch: bool, pings: map<IP, nat>, arp: map<IP, string>)
    ensures TickCell(c, ip, inBatch, pings, arp)
         == TickCell(c.(row := if c.row.Some? then Some(ApplyARP(c.row.value, arp)) else None), ip, inBatch,
                     pings, map[])
  {
  }

  // ---- the fast probe ----

  lemma FastRowActs(hosts: seq<Host>, stats: map<IP, Stats>, ip: IP, pings: map<IP, nat>, other: IP)
    requires DistinctRows(hosts)
    ensures var (rows, st) := FastRow(hosts, stats, ip, pings);
            && DistinctRows(rows)
            && CellOf(rows, st, other)
            == (if other == ip then FastCell(CellOf(hosts, stats, ip), ip, pings) else CellOf(hosts, stats, other))
  {
    hide DistinctRows, MoveToBottom;
    var i := Index(hosts, ip);
    if i >= 0 {
      if ip in pings {
        RowUpdated(hosts, i, Revived(hosts[i], pings[ip]), other);
      } else {
        var dead := hosts[i].(latency := -1, status := Dead);
        RowUpdated(hosts, i, dead, other);
        MovedRow(hosts[i := dead], ip, other);
      }
    }
  }

  lemma {:induction false} FastRowsAct(hosts: seq<Host>, stats: map<IP, Stats>, suspects: seq<IP>, pings: map<IP,
                                       nat>, ip: IP)
    requires DistinctRows(hosts) && Distinct(suspects)
    ensures var (rows, st) := FastRows(hosts, stats, suspects, pings);
            && DistinctRows(rows)
            && CellOf(rows, st, ip)
            == (if ip in suspects then FastCell(CellOf(hosts, stats, ip), ip, pings) else CellOf(hosts, stats, ip))
  {
    if suspects != [] {
      var front, last := suspects[..|suspects| - 1], suspects[|suspects| - 1];
      FastRowsAct(hosts, stats, front, pings, ip);
      var (rows, st) := FastRows(hosts, stats, front, pings);
      FastRowActs(rows, st, last, pings, ip);
      assert suspects == front + [last] && last !in front;
    }
  }

  lemma FastActs(t: Table, suspects: seq<IP>, pings: map<IP, nat>, ip: IP)
    requires DistinctRows(t.hosts) && Distinct(suspects)
    ensures DistinctRows(FastApply(t, suspects, pings).hosts)
    ensures At(FastApply(t, suspects, pings), ip)
         == if ip in suspects then FastCell(At(t, ip), ip, pings) else At(t, ip)
  {
    FastRowsAct(t.hosts, t.stats, suspects, pings, ip);
  }
}
