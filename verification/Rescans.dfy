/**
 * What a finished scan does to the table: the order of the rows, and the cell of each address. The
 * same for finishing the first scan.
 */
module Rescans {
  import opened Wrappers
  import opened Sorting
  import opened PingStats
  import opened HostTable
  import opened HostCells

  lemma IndexConcat(a: seq<Host>, b: seq<Host>, ip: IP)
    ensures Index(a + b, ip)
         == if Index(a, ip) >= 0 then Index(a, ip) else if Index(b, ip) >= 0 then |a| + Index(b, ip) else -1
  {
    var s := a + b;
    assert forall k | 0 <= k < |s| :: s[k] == if k < |a| then a[k] else b[k - |a|];
    var i := Index(s, ip);
    if Index(a, ip) >= 0 {
      assert s[Index(a, ip)].ip == ip;
    } else if Index(b, ip) >= 0 {
      assert s[|a| + Index(b, ip)].ip == ip;
      assert i >= 0 && i >= |a| && b[i - |a|].ip == ip;
    }
  }

  lemma IndexSnoc(a: seq<Host>, h: Host, ip: IP)
    ensures Index(a + [h], ip) == if Index(a, ip) >= 0 then Index(a, ip) else if h.ip == ip then |a| else -1
  {
    IndexConcat(a, [h], ip);
    assert Index([h], ip) == if h.ip == ip then 0 else -1;
  }

  lemma RowSnoc(a: seq<Host>, h: Host, ip: IP)
    ensures RowOf(a + [h], ip) == if RowOf(a, ip).Some? then RowOf(a, ip) else if h.ip == ip then Some(h) else None
  {
    IndexSnoc(a, h, ip);
  }

  lemma FrontDistinct(s: seq<Host>)
    requires DistinctRows(s) && s != []
    ensures DistinctRows(s[..|s| - 1]) && RowOf(s[..|s| - 1], s[|s| - 1].ip).None?
    ensures s == s[..|s| - 1] + [s[|s| - 1]]
  {
  }

  // ---- the three parts of a reconciled table ----

  /** The addresses a and b have rows in r only if they have rows in s, and then in the same order. */
  predicate InOrder(r: seq<Host>, s: seq<Host>, a: IP, b: IP) {
    && (Index(r, a) >= 0 ==> Index(s, a) >= 0)
    && (Index(r, b) >= 0 ==> Index(s, b) >= 0)
    && (Index(r, a) >= 0 && Index(r, b) >= 0 ==> (Index(r, a) < Index(r, b) <==> Index(s, a) < Index(s, b)))
  }

  lemma OrderExtends(r: seq<Host>, s: seq<Host>, g: seq<Host>, h: Host, a: IP, b: IP)
    requires InOrder(r, s, a, b) && RowOf(s, h.ip).None?
    requires g == [] || (|g| == 1 && g[0].ip == h.ip)
    ensures InOrder(r + g, s + [h], a, b)
  {
    IndexSnoc(s, h, a);
    IndexSnoc(s, h, b);
    if g == [] {
      assert r + g == r;
    } else {
      assert g == [g[0]];
      IndexSnoc(r, g[0], a);
      IndexSnoc(r, g[0], b);
    }
  }

  function FoundAgain(found: seq<Host>, h: Host): (r: seq<Host>) {
    if LastOf(found, h.ip).Some? then [LastOf(found, h.ip).value] else []
  }

  function NotFound(found: seq<Host>, h: Host): (r: seq<Host>) {
    if LastOf(found, h.ip).Some? then [] else [h.(status := Dead, latency := -1)]
  }

  function NotKnown(olds: seq<Host>, h: Host): (r: seq<Host>) {
    if RowOf(olds, h.ip).Some? then [] else [h]
  }

  lemma KeptSteps(olds: seq<Host>, found: seq<Host>)
    requires olds != []
    ensures var front, last := olds[..|olds| - 1], olds[|olds| - 1];
            && Kept(olds, found) == Kept(front, found) + FoundAgain(found, last)
            && Dropped(olds, found) == Dropped(front, found) + NotFound(found, last)
  {
  }

  lemma AddedSteps(olds: seq<Host>, found: seq<Host>)
    requires found != []
    ensures var front, last := found[..|found| - 1], found[|found| - 1];
            Added(olds, found) == Added(olds, front) + NotKnown(olds, last)
  {
  }

  /** Kept holds the old hosts that were found and Dropped those that were not, in old order. */
  lemma {:induction false} OldOrder(olds: seq<Host>, found: seq<Host>, a: IP, b: IP)
    requires DistinctRows(olds)
    ensures InOrder(Kept(olds, found), olds, a, b) && InOrder(Dropped(olds, found), olds, a, b)
    decreases |olds|
  {
    if olds != [] {
      var front, last := olds[..|olds| - 1], olds[|olds| - 1];
      KeptSteps(olds, found);
      FrontDistinct(olds);
      hide DistinctRows, Kept, Dropped, InOrder;
      OldOrder(front, found, a, b);
      OrderExtends(Kept(front, found), front, FoundAgain(found, last), last, a, b);
      OrderExtends(Dropped(front, found), front, NotFound(found, last), last, a, b);
    }
  }

  lemma {:induction false} OldRows(olds: seq<Host>, found: seq<Host>, ip: IP)
    requires DistinctRows(olds)
    ensures RowOf(Kept(olds, found), ip) == if RowOf(olds, ip).Some? then LastOf(found, ip) else None
    ensures RowOf(Dropped(olds, found), ip)
         == if RowOf(olds, ip).Some? && LastOf(found, ip).None?
            then Some(RowOf(olds, ip).value.(status := Dead, latency := -1)) else None
    decreases |olds|
  {
    if olds != [] {
      var front, last := olds[..|olds| - 1], olds[|olds| - 1];
      KeptSteps(olds, found);
      FrontDistinct(olds);
      var again, lost := FoundAgain(found, last), NotFound(found, last);
      assert again != [] ==> again == [again[0]] && again[0].ip == last.ip;
      assert lost != [] ==> lost == [lost[0]];
      hide DistinctRows, Kept, Dropped, RowOf;
      OldRows(front, found, ip);
      RowSnoc(front, last, ip);
      if again != [] {
        RowSnoc(Kept(front, found), again[0], ip);
        assert Dropped(front, found) + lost == Dropped(front, found);
      } else {
        RowSnoc(Dropped(front, found), lost[0], ip);
        assert Kept(front, found) + again == Kept(front, found);
      }
    }
  }

  /** Added holds the found hosts without an old row, in scan order. */
  lemma {:induction false} NewRows(olds: seq<Host>, found: seq<Host>, a: IP, b: IP)
    requires DistinctRows(found)
    ensures RowOf(Added(olds, found), a) == if RowOf(olds, a).None? then RowOf(found, a) else None
    ensures InOrder(Added(olds, found), found, a, b)
    decreases |found|
  {
    if found != [] {
      var front, last := found[..|found| - 1], found[|found| - 1];
      AddedSteps(olds, found);
      FrontDistinct(found);
      var more := NotKnown(olds, last);
      assert more == if RowOf(olds, last.ip).Some? then [] else [last];
      hide DistinctRows, Added, RowOf, InOrder, NotKnown;
      NewRows(olds, front, a, b);
      OrderExtends(Added(olds, front), front, more, last, a, b);
      RowSnoc(front, last, a);
      if more == [] {
        assert Added(olds, front) + more == Added(olds, front);
      } else {
        RowSnoc(Added(olds, front), last, a);
      }
    }
  }

  /** With one row an address, the last one is the only one. */
  lemma {:induction false} LastOfDistinct(found: seq<Host>, ip: IP)
    requires DistinctRows(found)
    ensures LastOf(found, ip) == RowOf(found, ip)
  {
    if found != [] {
      var front, last := found[..|found| - 1], found[|found| - 1];
      assert found == front + [last];
      LastOfDistinct(front, ip);
      IndexSnoc(front, last, ip);
    }
  }

  /** 0 for an old row found again, 1 for an old row not found, 2 for a new host. */
  function Class(olds: seq<Host>, found: seq<Host>, ip: IP): (c: nat) {
    if RowOf(olds, ip).None? then 2 else if RowOf(found, ip).Some? then 0 else 1
  }

  /** The place of an address inside its class. */
  function Place(olds: seq<Host>, found: seq<Host>, ip: IP): (i: int) {
    if RowOf(olds, ip).None? then Index(found, ip) else Index(olds, ip)
  }

  /**
   * The reconciled table is a stable three-way partition: rows found again in old order, then rows
   * not found in old order, then new hosts in scan order; and it holds the rows a rescan should.
   */
  lemma ReconcileIsStablePartition(olds: seq<Host>, found: seq<Host>, a: IP, b: IP)
    requires DistinctRows(olds) && DistinctRows(found)
    ensures var r := Reconcile(olds, found);
            && RowOf(r, a) == RescanCell(Cell(RowOf(olds, a), None), RowOf(found, a)).row
            && (RowOf(r, a).Some? && RowOf(r, b).Some? ==>
                  (Index(r, a) < Index(r, b) <==>
                   || Class(olds, found, a) < Class(olds, found, b)
                   || (Class(olds, found, a) == Class(olds, found, b)
                       && Place(olds, found, a) < Place(olds, found, b))))
  {
    hide DistinctRows, Kept, Dropped, Added, LastOf, Index;
    PartsOf(olds, found, a, b);
    PartsOf(olds, found, b, a);
    PositionInParts(olds, found, a);
    PositionInParts(olds, found, b);
  }

  lemma PartsOf(olds: seq<Host>, found: seq<Host>, a: IP, b: IP)
    requires DistinctRows(olds) && DistinctRows(found)
    ensures RowOf(Kept(olds, found), a).Some? <==> (RowOf(olds, a).Some? && RowOf(found, a).Some?)
    ensures RowOf(Kept(olds, found), a).Some? ==> RowOf(Kept(olds, found), a) == RowOf(found, a)
    ensures RowOf(Dropped(olds, found), a)
         == if RowOf(olds, a).Some? && RowOf(found, a).None?
            then Some(RowOf(olds, a).value.(status := Dead, latency := -1)) else None
    ensures RowOf(Added(olds, found), a) == if RowOf(olds, a).None? then RowOf(found, a) else None
    ensures RowOf(Kept(olds, found), a).Some? && RowOf(Kept(olds, found), b).Some? ==>
              (Index(Kept(olds, found), a) < Index(Kept(olds, found), b) <==> Index(olds, a) < Index(olds, b))
    ensures RowOf(Dropped(olds, found), a).Some? && RowOf(Dropped(olds, found), b).Some? ==>
              (Index(Dropped(olds, found), a) < Index(Dropped(olds, found), b) <==> Index(olds, a) < Index(olds, b))
    ensures RowOf(Added(olds, found), a).Some? && RowOf(Added(olds, found), b).Some? ==>
              (Index(Added(olds, found), a) < Index(Added(olds, found), b) <==> Index(found, a) < Index(found, b))
  {
    hide DistinctRows, Kept, Dropped, Added, LastOf, Index;
    OldRows(olds, found, a);
    OldRows(olds, found, b);
    OldOrder(olds, found, a, b);
    NewRows(olds, found, a, b);
    NewRows(olds, found, b, a);
    LastOfDistinct(found, b);
    LastOfDistinct(found, a);
  }

  lemma PositionInParts(olds: seq<Host>, found: seq<Host>, ip: IP)
    ensures var (k, d, n) := (Kept(olds, found), Dropped(olds, found), Added(olds, found));
            Index(Reconcile(olds, found), ip)
            == (if Index(k, ip) >= 0 then Index(k, ip)
                else if Index(d, ip) >= 0 then |k| + Index(d, ip)
                else if Index(n, ip) >= 0 then |k| + |d| + Index(n, ip)
                else -1)
    ensures var (k, d, n) := (Kept(olds, found), Dropped(olds, found), Added(olds, found));
            RowOf(Reconcile(olds, found), ip)
            == (if RowOf(k, ip).Some? then RowOf(k, ip) else if RowOf(d, ip).Some? then RowOf(d, ip) else RowOf(n, ip))
    ensures Index(Kept(olds, found), ip) < |Kept(olds, found)|
    ensures Index(Dropped(olds, found), ip) < |Dropped(olds, found)|
  {
    hide Kept, Dropped, Added;
    IndexConcat3(Kept(olds, found), Dropped(olds, found), Added(olds, found), ip);
  }

  lemma IndexConcat3(k: seq<Host>, d: seq<Host>, n: seq<Host>, ip: IP)
    ensures Index(k + d + n, ip)
         == (if Index(k, ip) >= 0 then Index(k, ip)
             else if Index(d, ip) >= 0 then |k| + Index(d, ip)
             else if Index(n, ip) >= 0 then |k| + |d| + Index(n, ip)
             else -1)
    ensures RowOf(k + d + n, ip)
         == (if RowOf(k, ip).Some? then RowOf(k, ip) else if RowOf(d, ip).Some? then RowOf(d, ip) else RowOf(n, ip))
  {
    IndexConcat(k, d, ip);
    IndexConcat(k + d, n, ip);
  }

  lemma {:induction false} PartsDistinct(olds: seq<Host>, found: seq<Host>)
    requires DistinctRows(olds)
    ensures DistinctRows(Kept(olds, found)) && DistinctRows(Dropped(olds, found))
    decreases |olds|
  {
    if olds != [] {
      var front, last := olds[..|olds| - 1], olds[|olds| - 1];
      PartsDistinct(front, found);
      assert olds == front + [last] && Index(front, last.ip) < 0;
      assert DistinctRows(front);
      OldRows(front, found, last.ip);
      hide DistinctRows;
      var h := LastOf(found, last.ip);
      if h.Some? {
        RowAppended(Kept(front, found), h.value, 0);
      } else {
        RowAppended(Dropped(front, found), last.(status := Dead, latency := -1), 0);
      }
    }
  }

  lemma {:induction false} AddedDistinct(olds: seq<Host>, found: seq<Host>)
    requires DistinctRows(found)
    ensures DistinctRows(Added(olds, found))
    decreases |found|
  {
    if found != [] {
      var front, last := found[..|found| - 1], found[|found| - 1];
      AddedDistinct(olds, front);
      assert found == front + [last] && Index(front, last.ip) < 0;
      assert DistinctRows(front);
      NewRows(olds, front, last.ip, last.ip);
      hide DistinctRows;
      if RowOf(olds, last.ip).None? {
        RowAppended(Added(olds, front), last, 0);
      }
    }
  }

  lemma ConcatDistinct(a: seq<Host>, b: seq<Host>)
    requires DistinctRows(a) && DistinctRows(b)
    requires forall ip :: RowOf(a, ip).None? || RowOf(b, ip).None?
    ensures DistinctRows(a + b)
  {
    var s := a + b;
    forall i, j | 0 <= i < j < |s| ensures s[i].ip != s[j].ip {
      if i < |a| <= j {
        assert RowOf(a, s[i].ip).None? || RowOf(b, s[i].ip).None?;
        assert a[i] == s[i] && b[j - |a|] == s[j];
      }
    }
  }

  lemma ReconcileDistinct(olds: seq<Host>, found: seq<Host>)
    requires DistinctRows(olds) && DistinctRows(found)
    ensures DistinctRows(Reconcile(olds, found))
  {
    var k, d, n := Kept(olds, found), Dropped(olds, found), Added(olds, found);
    PartsDistinct(olds, found);
    AddedDistinct(olds, found);
    forall ip: IP
      ensures RowOf(k, ip).None? || RowOf(d, ip).None?
      ensures RowOf(k + d, ip).None? || RowOf(n, ip).None?
    {
      PartsOf(olds, found, ip, ip);
      IndexConcat(k, d, ip);
    }
    hide DistinctRows, RowOf;
    ConcatDistinct(k, d);
    ConcatDistinct(k + d, n);
  }

  // ---- recording the latencies of all rows ----

  lemma {:induction false} RecordAllActs(stats: map<IP, Stats>, hosts: seq<Host>, ip: IP)
    requires DistinctRows(hosts)
    ensures var c := CellOf(hosts, RecordAll(stats, hosts), ip);
            c.stats == if c.row.Some? then Pinged(CellOf(hosts, stats, ip).stats, c.row.value.latency)
                       else CellOf(hosts, stats, ip).stats
    decreases |hosts|
  {
    if hosts != [] {
      var front, last := hosts[..|hosts| - 1], hosts[|hosts| - 1];
      assert hosts == front + [last] && Index(front, last.ip) < 0;
      RecordAllActs(stats, front, ip);
      IndexSnoc(front, last, ip);
    }
  }

  lemma RescanActs(t: Table, found: seq<Host>, ip: IP)
    requires DistinctRows(t.hosts) && DistinctRows(found)
    ensures DistinctRows(ApplyRescan(t, found).hosts)
    ensures At(ApplyRescan(t, found), ip) == RescanCell(At(t, ip), RowOf(found, ip))
  {
    hide DistinctRows, Reconcile, RecordAll, RowOf;
    var rows := Reconcile(t.hosts, found);
    ReconcileDistinct(t.hosts, found);
    ReconcileIsStablePartition(t.hosts, found, ip, ip);
    RecordAllActs(t.stats, rows, ip);
  }

  /** Finishing a scan sorts the found rows and counts their latencies as pings. */
  lemma FinishActs(t: Table, found: seq<Host>, ips: seq<IP>, ip: IP)
    requires DistinctRows(found)
    ensures DistinctRows(Finish(t, found, ips).hosts)
    ensures RowOf(Finish(t, found, ips).hosts, ip) == RowOf(found, ip)
    ensures At(Finish(t, found, ips), ip).stats
         == var s := CellOf(found, t.stats, ip).stats;
            if RowOf(found, ip).Some? then Pinged(s, RowOf(found, ip).value.latency) else s
  {
    var rows := Sort(found, RowLeq);
    SortPermutes(found, RowLeq);
    PermutationKeepsRows(found, rows, ip);
    RecordAllActs(t.stats, rows, ip);
  }

  /** When the watch begins the rows ascend by address, as numbers. */
  lemma FinishAscends(t: Table, found: seq<Host>, ips: seq<IP>)
    requires DistinctRows(found)
    ensures var rows := Finish(t, found, ips).hosts;
            |rows| == |found| && forall i, j | 0 <= i < j < |rows| :: rows[i].ip < rows[j].ip
  {
    var rows := Sort(found, RowLeq);
    SortSorts(found, RowLeq);
    assert |multiset(rows)| == |rows| && |multiset(found)| == |found|;
    FinishActs(t, found, ips, 0);
    assert forall i, j | 0 <= i < j < |rows| :: RowLeq(rows[i], rows[j]) && rows[i].ip != rows[j].ip;
  }

  lemma PermutationKeepsRows(a: seq<Host>, b: seq<Host>, ip: IP)
    requires DistinctRows(a) && multiset(a) == multiset(b)
    ensures DistinctRows(b) && RowOf(b, ip) == RowOf(a, ip)
  {
    forall h ensures h in a <==> h in b {
      assert h in multiset(a) <==> h in multiset(b);
    }
    forall i, j | 0 <= i < j < |b| ensures b[i].ip != b[j].ip {
      if b[i].ip == b[j].ip {
        assert b[i] in a && b[j] in a;
        assert b[i] == b[j];
        TwiceInBag(b, i, j);
        OnceInBag(a, b[i]);
      }
    }
    if Index(a, ip) >= 0 {
      assert a[Index(a, ip)] in b;
    }
    if Index(b, ip) >= 0 {
      assert b[Index(b, ip)] in a;
    }
  }

  lemma TwiceInBag(s: seq<Host>, i: nat, j: nat)
    requires i < j < |s| && s[i] == s[j]
    ensures multiset(s)[s[i]] >= 2
  {
    assert s == s[..i] + [s[i]] + s[i + 1..j] + [s[j]] + s[j + 1..];
  }

  lemma {:induction false} OnceInBag(s: seq<Host>, h: Host)
    requires DistinctRows(s)
    ensures multiset(s)[h] <= 1
  {
    if s != [] {
      var front, last := s[..|s| - 1], s[|s| - 1];
      OnceInBag(front, h);
      assert s == front + [last];
      if h == last {
        assert h !in front;
      }
    }
  }
}
