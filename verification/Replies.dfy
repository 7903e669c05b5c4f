/** Which recordings are of a reply that was recorded before, and what they do to the statistics. */
module Replies {
  import opened Wrappers
  import opened PingStats
  import opened HostTable
  import opened HostCells
  import opened Rescans
  import opened WatchRuns
  import opened FirstScan
  import opened Escalation
  import opened PingHistory

  /** A reply or a miss; `of` is where the same reply was recorded first, if it was before. */
  datatype Recording = Recording(event: Event, of: Option<nat>)

  /**
   * The recordings of a host, and where among them stand the replies that may be recorded again: that
   * to the last tick, that of the discovery under way, and that which the running scan has reported.
   */
  datatype Trace = Trace(recs: seq<Recording>, tick: Option<nat>, pending: Option<nat>, told: Option<nat>)

  const NOTHING := Trace([], None, None, None)

  function Said(recs: seq<Recording>): (h: seq<Event>) {
    if recs == [] then [] else Said(recs[..|recs| - 1]) + [recs[|recs| - 1].event]
  }

  /** The misses, and each reply once. */
  function Measured(recs: seq<Recording>): (h: seq<Event>) {
    if recs == [] then []
    else
      var last := recs[|recs| - 1];
      Measured(recs[..|recs| - 1]) + if last.of.Some? then [] else [last.event]
  }

  function Recorded(recs: seq<Recording>, events: seq<Event>, of: Option<nat>): (r: seq<Recording>) {
    if events == [] then recs else recs + [Recording(events[0], of)]
  }

  predicate Starts(s: Sys, a: Action) {
    a.RescanStart? && !s.t.rescanning && TriggerRescan(s.t).rescanning
  }

  /** Where the reply that is recorded now was recorded first, if it was. */
  function Repeated(a: Action, ip: IP, tr: Trace): (of: Option<nat>) {
    match a
    case Resolved(host) => if host.ip == ip then tr.pending else None
    case RescanEnd(_) => tr.told
    case _ => None
  }

  /** Each tick has its own replies, and a reply sets off one discovery. */
  function NextTick(s: Sys, a: Action, ip: IP, tr: Trace): (at: Option<nat>) {
    match a
    case TickStart => None
    case TickEnd(_, _) => if HasReply(s, a, ip) then Some(|tr.recs|) else None
    case Noticed(i, ms) => if i == ip && ms >= 0 then None else tr.tick
    case _ => tr.tick
  }

  /** A discovery keeps the reply it was started with, which may have been recorded before. */
  function NextPending(s: Sys, a: Action, ip: IP, tr: Trace): (at: Option<nat>) {
    match a
    case Noticed(i, ms) =>
      if i != ip then tr.pending else if HasReply(s, a, ip) then Some(|tr.recs|) else if ms >= 0 then tr.tick else None
    case Resolved(host) => if host.ip == ip then None else tr.pending
    case Vanished(i) => if i == ip then None else tr.pending
    case _ => tr.pending
  }

  /** The running scan reports a host once, and returns what it has reported. */
  function NextTold(s: Sys, a: Action, ip: IP, tr: Trace): (at: Option<nat>) {
    match a
    case RescanStart => if Starts(s, a) then None else tr.told
    case Ready(host) => if host.ip != ip then tr.told else if HasReply(s, a, ip) then Some(|tr.recs|) else None
    case RescanEnd(_) => None
    case _ => tr.told
  }

  predicate HasReply(s: Sys, a: Action, ip: IP) {
    var events := Events(s, a, ip);
    events != [] && events[0].Ping?
  }

  function Next(s: Sys, a: Action, ip: IP, tr: Trace): (r: Trace) {
    if Forgets(s, a, ip) then NOTHING
    else
      Trace(Recorded(tr.recs, Events(s, a, ip), Repeated(a, ip, tr)),
            NextTick(s, a, ip, tr), NextPending(s, a, ip, tr), NextTold(s, a, ip, tr))
  }

  ghost function TraceAfter(s: Sys, run: seq<Action>, ip: IP, tr: Trace): (r: Trace)
    requires Legal(s, run)
    decreases |run|
  {
    if run == [] then tr else TraceAfter(Apply(s, run[0]), run[1..], ip, Next(s, run[0], ip, tr))
  }

  // ---- every repetition is one ----

  /** The reply ms is recorded first at position i. */
  predicate FirstAt(recs: seq<Recording>, i: nat, ms: int) {
    i < |recs| && ms >= 0 && recs[i] == Recording(Ping(ms), None)
  }

  /** A recording that points back points to the first recording of a reply with the same latency. */
  ghost predicate Linked(recs: seq<Recording>) {
    forall i | 0 <= i < |recs| && recs[i].of.Some? :: LinkedAt(recs, i)
  }

  predicate LinkedAt(recs: seq<Recording>, i: nat)
    requires i < |recs| && recs[i].of.Some?
  {
    var (of, event) := (recs[i].of.value, recs[i].event);
    of < i && event.Ping? && FirstAt(recs, of, event.ms)
  }

  ghost predicate TickOk(s: Sys, ip: IP, recs: seq<Recording>, at: Option<nat>) {
    at.Some? ==> ip in s.answered && FirstAt(recs, at.value, s.answered[ip]) && RowOf(s.t.hosts, ip).Some?
  }

  ghost predicate PendingOk(s: Sys, ip: IP, recs: seq<Recording>, at: Option<nat>) {
    at.Some? ==> ip in s.pending && FirstAt(recs, at.value, s.pending[ip])
  }

  ghost predicate ToldOk(s: Sys, ip: IP, recs: seq<Recording>, at: Option<nat>) {
    at.Some? ==> ip in s.told && FirstAt(recs, at.value, s.told[ip].latency)
  }

  /** What the trace points to is what the system is about to record again. */
  ghost predicate TraceOk(s: Sys, ip: IP, tr: Trace) {
    && Linked(tr.recs)
    && TickOk(s, ip, tr.recs, tr.tick) && PendingOk(s, ip, tr.recs, tr.pending) && ToldOk(s, ip, tr.recs, tr.told)
  }

  /** What was recorded first stays so. */
  ghost predicate Extends(recs: seq<Recording>, more: seq<Recording>) {
    forall i: nat, ms | FirstAt(recs, i, ms) :: FirstAt(more, i, ms)
  }

  lemma AppendExtends(recs: seq<Recording>, r: Recording)
    ensures Extends(recs, recs + [r])
    ensures r.event.Ping? && r.of.None? ==> FirstAt(recs + [r], |recs|, r.event.ms)
  {
  }

  lemma AppendLinked(recs: seq<Recording>, r: Recording)
    requires Linked(recs)
    requires r.of.Some? ==> r.event.Ping? && FirstAt(recs, r.of.value, r.event.ms)
    ensures Linked(recs + [r])
  {
    var more := recs + [r];
    AppendExtends(recs, r);
    assert r.of.Some? ==> r.of.value < |recs|;
    hide FirstAt;
    forall i | 0 <= i < |more| && more[i].of.Some? ensures LinkedAt(more, i) {
      if i < |recs| {
        assert more[i] == recs[i] && LinkedAt(recs, i);
      }
    }
  }

  lemma RecordedLinked(recs: seq<Recording>, events: seq<Event>, of: Option<nat>)
    requires Linked(recs) && |events| <= 1
    requires of.Some? ==> events == [] || (events[0].Ping? && FirstAt(recs, of.value, events[0].ms))
    ensures var more := Recorded(recs, events, of);
            && Linked(more) && Said(more) == Said(recs) + events
            && Extends(recs, more)
            && (of.None? && events != [] && events[0].Ping? ==> FirstAt(more, |recs|, events[0].ms))
  {
    hide FirstAt, Linked;
    if events == [] {
      assert Said(recs) + [] == Said(recs);
    } else {
      var r := Recording(events[0], of);
      AppendExtends(recs, r);
      AppendLinked(recs, r);
      assert (recs + [r])[..|recs|] == recs && events == [events[0]];
      hide Extends;
    }
  }

  lemma TickStep(s: Sys, a: Action, ip: IP, tr: Trace, more: seq<Recording>)
    requires Inv(s) && Enabled(s, a) && TickOk(s, ip, tr.recs, tr.tick) && Extends(tr.recs, more) && !Forgets(s, a, ip)
    requires HasReply(s, a, ip) && Repeated(a, ip, tr).None? ==> FirstAt(more, |tr.recs|, Events(s, a, ip)[0].ms)
    ensures TickOk(Apply(s, a), ip, more, NextTick(s, a, ip, tr))
  {
    if RowOf(s.t.hosts, ip).Some? {
      RowLostOnlyWhenBare(s, a, ip);
    }
    hide Inv, RowOf, FirstAt, DistinctRows;
    hide TickApply, FastApply, AddPlaceholder, Upsert, RemoveHost, HTTPRefresh, PortOpen, EnrichStart, ApplyRescan;
  }

  lemma PendingStep(s: Sys, a: Action, ip: IP, tr: Trace, more: seq<Recording>)
    requires Enabled(s, a) && TickOk(s, ip, tr.recs, tr.tick) && PendingOk(s, ip, tr.recs, tr.pending)
    requires Extends(tr.recs, more) && !Forgets(s, a, ip)
    requires HasReply(s, a, ip) && Repeated(a, ip, tr).None? ==> FirstAt(more, |tr.recs|, Events(s, a, ip)[0].ms)
    ensures PendingOk(Apply(s, a), ip, more, NextPending(s, a, ip, tr))
  {
    hide RowOf, FirstAt, DistinctRows;
    hide TickApply, FastApply, AddPlaceholder, Upsert, RemoveHost, HTTPRefresh, PortOpen, EnrichStart, ApplyRescan;
  }

  lemma ToldStep(s: Sys, a: Action, ip: IP, tr: Trace, more: seq<Recording>)
    requires Enabled(s, a) && ToldOk(s, ip, tr.recs, tr.told)
    requires Extends(tr.recs, more) && !Forgets(s, a, ip)
    requires HasReply(s, a, ip) && Repeated(a, ip, tr).None? ==> FirstAt(more, |tr.recs|, Events(s, a, ip)[0].ms)
    ensures ToldOk(Apply(s, a), ip, more, NextTold(s, a, ip, tr))
  {
    hide RowOf, FirstAt, DistinctRows;
    hide TickApply, FastApply, AddPlaceholder, Upsert, RemoveHost, HTTPRefresh, PortOpen, EnrichStart, ApplyRescan;
  }

  /** A reply that the step repeats is the one its origin holds. */
  lemma RepeatedIsReal(s: Sys, a: Action, ip: IP, tr: Trace)
    requires Enabled(s, a) && TraceOk(s, ip, tr)
    ensures var (of, events) := (Repeated(a, ip, tr), Events(s, a, ip));
            of.Some? && events != [] ==> events[0].Ping? && FirstAt(tr.recs, of.value, events[0].ms)
  {
    FoundIsTold(s, a, ip);
    hide RowOf, FirstAt, DistinctRows, Linked, TickOk;
  }

  /** A step keeps the trace right, and adds to it what the step records. */
  lemma StepLinked(s: Sys, a: Action, ip: IP, tr: Trace)
    requires Inv(s) && Enabled(s, a) && TraceOk(s, ip, tr)
    ensures TraceOk(Apply(s, a), ip, Next(s, a, ip, tr))
    ensures Said(Next(s, a, ip, tr).recs) == if Forgets(s, a, ip) then [] else Said(tr.recs) + Events(s, a, ip)
  {
    var of := Repeated(a, ip, tr);
    RepeatedIsReal(s, a, ip, tr);
    RecordedLinked(tr.recs, Events(s, a, ip), of);
    assert Linked([]) && Said([]) == [];
    hide Inv, Linked, Said, FirstAt, Recorded, Enabled, Apply, Events, Forgets, Repeated;
    if !Forgets(s, a, ip) {
      var more := Recorded(tr.recs, Events(s, a, ip), of);
      TickStep(s, a, ip, tr, more);
      PendingStep(s, a, ip, tr, more);
      ToldStep(s, a, ip, tr, more);
    }
  }

  lemma FoundIsTold(s: Sys, a: Action, ip: IP)
    requires Enabled(s, a)
    ensures a.RescanEnd? && RowOf(a.found, ip).Some? ==> ip in s.told && s.told[ip] == RowOf(a.found, ip).value
  {
  }

  lemma {:induction false} RunLinked(s: Sys, run: seq<Action>, ip: IP, tr: Trace)
    requires Inv(s) && Legal(s, run) && TraceOk(s, ip, tr)
    ensures TraceOk(Run(s, run), ip, TraceAfter(s, run, ip, tr))
    ensures Said(TraceAfter(s, run, ip, tr).recs) == HistoryAfter(s, run, ip, Said(tr.recs))
    decreases |run|
  {
    if run != [] {
      StepKeepsInv(s, run[0]);
      StepLinked(s, run[0], ip, tr);
      hide Inv, TraceOk, Said, Apply, Enabled, Next, Events, Forgets;
      RunLinked(Apply(s, run[0]), run[1..], ip, Next(s, run[0], ip, tr));
    }
  }

  // ---- the first scan ----

  /** Each reply to the first scan is recorded when the host is ready, and again when the table is filled. */
  function StartTrace(found: seq<Host>, ip: IP): (tr: Trace) {
    var row := RowOf(found, ip);
    if row.None? || row.value.latency < 0 then NOTHING
    else
      Trace([Recording(Ping(row.value.latency), None), Recording(Ping(row.value.latency), Some(0))], None, None, None)
  }

  lemma {:induction false} NotReported(calls: seq<Action>, ip: IP)
    requires forall a | a in calls && a.Ready? :: a.host.ip != ip
    ensures ScanHistory(calls, ip) == []
  {
    if calls != [] {
      assert calls[|calls| - 1] in calls && forall a | a in calls[..|calls| - 1] :: a in calls;
      NotReported(calls[..|calls| - 1], ip);
    }
  }

  lemma {:induction false} ReportedOnce(calls: seq<Action>, h: Host)
    requires Ready(h) in calls
    requires forall i, j | 0 <= i < j < |calls| && calls[i].Ready? && calls[j].Ready? ::
               calls[i].host.ip != calls[j].host.ip
    ensures ScanHistory(calls, h.ip) == Reply(h.latency)
  {
    var front, last := calls[..|calls| - 1], calls[|calls| - 1];
    assert forall i | 0 <= i < |front| :: front[i] == calls[i];
    if last == Ready(h) {
      forall a | a in front && a.Ready? ensures a.host.ip != h.ip {
        var i :| 0 <= i < |front| && front[i] == a;
      }
      NotReported(front, h.ip);
      assert [] + Reply(h.latency) == Reply(h.latency);
    } else {
      var i :| 0 <= i < |calls| && calls[i] == Ready(h);
      assert front[i] == Ready(h);
      ReportedOnce(front, h);
      assert Reply(h.latency) + [] == Reply(h.latency);
    }
  }

  /** What the first scan records, with the entry into the table, is the start of the trace. */
  lemma StartTraceSays(calls: seq<Action>, found: seq<Host>, ip: IP)
    requires ScanReports(calls, found)
    ensures Said(StartTrace(found, ip).recs) == StartHistory(calls, found, ip)
    ensures Linked(StartTrace(found, ip).recs)
  {
    var row := RowOf(found, ip);
    if row.Some? {
      ReportedOnce(calls, row.value);
      if row.value.latency >= 0 {
        SaidTwice(row.value.latency);
      }
    } else {
      forall a | a in calls && a.Ready? ensures a.host.ip != ip {
        RowOfMember(found, a.host);
      }
      NotReported(calls, ip);
    }
    assert Said([]) == [];
    hide Said, Linked, ScanHistory, RowOf, ScanReports;
  }

  lemma SaidTwice(ms: nat)
    ensures var recs := [Recording(Ping(ms), None), Recording(Ping(ms), Some(0))];
            Linked(recs) && Said(recs) == [Ping(ms)] + [Ping(ms)]
  {
    var one := [Recording(Ping(ms), None)];
    var two := one + [Recording(Ping(ms), Some(0))];
    assert two[..1] == one && one[..0] == [];
    assert Said(one) == Said([]) + [Ping(ms)];
    assert Said(two) == Said(one) + [Ping(ms)];
    assert forall i | 0 <= i < 2 && two[i].of.Some? :: LinkedAt(two, i);
  }

  lemma StartLinked(calls: seq<Action>, found: seq<Host>, ips: seq<IP>, ip: IP)
    requires ScanReports(calls, found)
    ensures TraceOk(Start(calls, found, ips), ip, StartTrace(found, ip))
  {
    StartTraceSays(calls, found, ip);
    hide Linked, Said, Callbacks, HostTable.Finish, RowOf, ScanReports;
  }

  // ---- what the statistics show ----

  lemma {:induction false} PingsAreReplies(h: seq<Event>, ms: int)
    ensures ms in Pings(h) <==> ms >= 0 && Ping(ms) in h
  {
    if h != [] {
      var front, last := h[..|h| - 1], h[|h| - 1];
      PingsAreReplies(front, ms);
      assert h == front + [last];
    }
  }

  lemma LinkedFront(recs: seq<Recording>)
    requires Linked(recs) && recs != []
    ensures Linked(recs[..|recs| - 1])
  {
    var front := recs[..|recs| - 1];
    assert forall i | 0 <= i < |front| :: front[i] == recs[i];
    forall i | 0 <= i < |front| && front[i].of.Some? ensures LinkedAt(front, i) {
      assert LinkedAt(recs, i);
    }
  }

  lemma {:induction false} FirstIsMeasured(recs: seq<Recording>, i: nat, ms: int)
    requires FirstAt(recs, i, ms)
    ensures Ping(ms) in Measured(recs)
  {
    var front := recs[..|recs| - 1];
    if i < |front| {
      assert FirstAt(front, i, ms);
      FirstIsMeasured(front, i, ms);
    }
  }

  /** Recording a reply again adds no new latency. */
  lemma {:induction false} SameReplies(recs: seq<Recording>, ms: nat)
    requires Linked(recs)
    ensures Ping(ms) in Said(recs) <==> Ping(ms) in Measured(recs)
  {
    if recs != [] {
      var front, last := recs[..|recs| - 1], recs[|recs| - 1];
      LinkedFront(recs);
      SameReplies(front, ms);
      assert last.of.Some? ==> LinkedAt(recs, |recs| - 1);
      if last.event == Ping(ms) && last.of.Some? {
        FirstIsMeasured(recs, last.of.value, ms);
      }
    }
  }

  /** The extremes are those of the measured replies; samples and misses are those of the recordings. */
  ghost predicate Shows(s: Stats, recs: seq<Recording>) {
    var measured := Pings(Measured(recs));
    && (measured == [] ==> s.min == -1 && s.max == -1)
    && (measured != [] ==> s.min in measured && s.max in measured)
    && (forall ms | ms in measured :: 0 <= s.min <= ms <= s.max)
    && s.samples == Window(Pings(Said(recs)))
    && s.misses == MissesSincePing(Said(recs))
  }

  lemma SummaryShows(s: Stats, recs: seq<Recording>)
    requires Summarises(s, Said(recs)) && Linked(recs)
    ensures Shows(s, recs)
  {
    hide Pings, Measured, Said, Linked;
    SameLatencies(recs);
    ExtremesOf(s.min, s.max, Pings(Said(recs)), Pings(Measured(recs)));
  }

  lemma SameLatencies(recs: seq<Recording>)
    requires Linked(recs)
    ensures forall ms: int :: ms in Pings(Said(recs)) <==> ms in Pings(Measured(recs))
  {
    hide Pings, Measured, Said, Linked;
    forall ms: int ensures ms in Pings(Said(recs)) <==> ms in Pings(Measured(recs)) {
      PingsAreReplies(Said(recs), ms);
      PingsAreReplies(Measured(recs), ms);
      if ms >= 0 {
        SameReplies(recs, ms);
      }
    }
  }

  lemma ExtremesOf(min: int, max: int, said: seq<int>, measured: seq<int>)
    requires forall ms: int :: ms in said <==> ms in measured
    requires (said == [] ==> min == -1 && max == -1) && (said != [] ==> min in said && max in said)
    requires forall ms | ms in said :: 0 <= min <= ms <= max
    ensures (measured == [] ==> min == -1 && max == -1) && (measured != [] ==> min in measured && max in measured)
    ensures forall ms | ms in measured :: 0 <= min <= ms <= max
  {
    if measured != [] {
      NotEmpty(measured, said);
    }
    if said != [] {
      NotEmpty(said, measured);
    }
  }

  lemma NotEmpty(a: seq<int>, b: seq<int>)
    requires a != [] && forall x: int :: x in a ==> x in b
    ensures b != []
  {
    assert a[0] in a;
    var i :| 0 <= i < |b| && b[i] == a[0];
  }

  /**
   * From an empty table on: minimum and maximum are those of the replies the host gave, each taken
   * once; the samples are its last six recordings, of which some may be of the same reply.
   */
  lemma StatisticsShowReplies(calls: seq<Action>, found: seq<Host>, ips: seq<IP>, run: seq<Action>, ip: IP)
    requires ScanReports(calls, found) && Legal(Start(calls, found, ips), run)
    ensures var recs := TraceAfter(Start(calls, found, ips), run, ip, StartTrace(found, ip)).recs;
            Linked(recs) && Shows(StatsFor(Run(Start(calls, found, ips), run).t.stats, ip), recs)
  {
    var s := Start(calls, found, ips);
    var tr := StartTrace(found, ip);
    StartTraceSays(calls, found, ip);
    StartLinked(calls, found, ips, ip);
    FinishEstablishesInv(calls, found, ips);
    assert forall i, r: Sys, t: Trace | TraceOk(r, i, t) :: Linked(t.recs);
    hide Inv, Start, StartTrace, Said, Linked, TraceOk, Shows, Summarises, Legal, Run, HistoryAfter;
    hide TraceAfter, ScanHistory, RowOf, ScanReports;
    AllStatisticsAreHistory(calls, found, ips, run, ip);
    RunLinked(s, run, ip, tr);
    SummaryShows(StatsFor(Run(s, run).t.stats, ip), TraceAfter(s, run, ip, tr).recs);
  }

  // ---- when the recorded replies are the measured ones ----

  predicate NoneAgain(recs: seq<Recording>) {
    forall i | 0 <= i < |recs| :: recs[i].of.None?
  }

  /**
   * The step records a reply again: it ends a rescan that returns the host with a latency, and the
   * host has not been dropped since the scan reported it; or it ends a discovery that was started
   * with a latency that had been recorded.
   */
  predicate RecordsAgain(a: Action, ip: IP, tr: Trace) {
    match a
    case RescanEnd(found) => RowOf(found, ip).Some? && RowOf(found, ip).value.latency >= 0 && tr.told.Some?
    case Resolved(host) => host.ip == ip && host.latency >= 0 && tr.pending.Some?
    case _ => false
  }

  /** The run records a reply again that it does not forget before its end. */
  ghost predicate RunRecordsAgain(s: Sys, run: seq<Action>, ip: IP, tr: Trace)
    requires Legal(s, run)
    decreases |run|
  {
    run != [] && var (rest, next) := (Apply(s, run[0]), Next(s, run[0], ip, tr));
    RunRecordsAgain(rest, run[1..], ip, next)
    || (RecordsAgain(run[0], ip, tr) && Keeps(rest, run[1..], ip))
  }

  /** No step of the run forgets the host. */
  ghost predicate Keeps(s: Sys, run: seq<Action>, ip: IP)
    requires Legal(s, run)
    decreases |run|
  {
    run == [] || (!Forgets(s, run[0], ip) && Keeps(Apply(s, run[0]), run[1..], ip))
  }

  lemma StepRecordsAgain(s: Sys, a: Action, ip: IP, tr: Trace)
    requires Enabled(s, a) && TraceOk(s, ip, tr) && !Forgets(s, a, ip)
    ensures NoneAgain(Next(s, a, ip, tr).recs) <==> NoneAgain(tr.recs) && !RecordsAgain(a, ip, tr)
  {
    var events, of := Events(s, a, ip), Repeated(a, ip, tr);
    FoundIsTold(s, a, ip);
    assert RecordsAgain(a, ip, tr) <==> events != [] && of.Some? by {
      hide RowOf, DistinctRows, Linked, FirstAt, TickOk;
    }
    var more := Recorded(tr.recs, events, of);
    assert Next(s, a, ip, tr).recs == more;
    hide Next, Events, Repeated, RecordsAgain, TraceOk, Enabled;
    if events != [] {
      assert more[|tr.recs|].of == of && forall i | 0 <= i < |tr.recs| :: more[i] == tr.recs[i];
    }
  }

  lemma {:induction false} WhenNoneAgain(s: Sys, run: seq<Action>, ip: IP, tr: Trace)
    requires Inv(s) && Legal(s, run) && TraceOk(s, ip, tr)
    ensures NoneAgain(TraceAfter(s, run, ip, tr).recs)
       <==> !RunRecordsAgain(s, run, ip, tr) && (NoneAgain(tr.recs) || !Keeps(s, run, ip))
    decreases |run|
  {
    if run != [] {
      var a := run[0];
      StepKeepsInv(s, a);
      StepLinked(s, a, ip, tr);
      if Forgets(s, a, ip) {
        assert Next(s, a, ip, tr) == NOTHING && NoneAgain(NOTHING.recs) && !RecordsAgain(a, ip, tr);
      } else {
        StepRecordsAgain(s, a, ip, tr);
      }
      hide Inv, TraceOk, NoneAgain, RecordsAgain, Apply, Enabled, Next, Forgets;
      WhenNoneAgain(Apply(s, a), run[1..], ip, Next(s, a, ip, tr));
    }
  }

  lemma {:induction false} SameUnlessAgain(recs: seq<Recording>)
    ensures |Measured(recs)| <= |Said(recs)| == |recs|
    ensures |Measured(recs)| == |recs| <==> NoneAgain(recs)
    ensures Said(recs) == Measured(recs) <==> NoneAgain(recs)
  {
    if recs != [] {
      var front, last := recs[..|recs| - 1], recs[|recs| - 1];
      SameUnlessAgain(front);
      assert forall i | 0 <= i < |front| :: front[i] == recs[i];
      if NoneAgain(front) && last.of.None? {
        forall i | 0 <= i < |recs| ensures recs[i].of.None? {
        }
      } else if NoneAgain(recs) {
        assert NoneAgain(front);
      }
      hide NoneAgain;
    }
  }

  /**
   * What is recorded of a host is what was measured, each reply once, exactly when nothing was
   * recorded again since it was last dropped: neither in the run nor, if it answered, by the first scan.
   */
  lemma RecordedAreMeasured(calls: seq<Action>, found: seq<Host>, ips: seq<IP>, run: seq<Action>, ip: IP)
    requires ScanReports(calls, found) && Legal(Start(calls, found, ips), run)
    ensures var (s, tr) := (Start(calls, found, ips), StartTrace(found, ip));
            var recs := TraceAfter(s, run, ip, tr).recs;
            var again := RunRecordsAgain(s, run, ip, tr) || (tr != NOTHING && Keeps(s, run, ip));
            Said(recs) == Measured(recs) <==> !again
  {
    var (s, tr) := (Start(calls, found, ips), StartTrace(found, ip));
    StartLinked(calls, found, ips, ip);
    FinishEstablishesInv(calls, found, ips);
    assert NoneAgain(tr.recs) <==> tr == NOTHING by {
      if tr != NOTHING {
        assert tr.recs[1].of.Some?;
      }
    }
    hide Inv, Start, TraceOk, NoneAgain, Legal, TraceAfter, RunRecordsAgain, Keeps, Said, Measured, RowOf, ScanReports;
    WhenNoneAgain(s, run, ip, tr);
    SameUnlessAgain(TraceAfter(s, run, ip, tr).recs);
  }

  /** The reply of the host that the running scan has reported has been recorded. */
  predicate ToldKnown(s: Sys, ip: IP, tr: Trace) {
    ip in s.told && s.told[ip].latency >= 0 ==> tr.told.Some?
  }

  lemma StepToldKnown(s: Sys, a: Action, ip: IP, tr: Trace)
    requires Enabled(s, a) && ToldKnown(s, ip, tr) && !Forgets(s, a, ip)
    ensures ToldKnown(Apply(s, a), ip, Next(s, a, ip, tr))
  {
    hide RowOf, DistinctRows, Recorded;
    hide TickApply, FastApply, AddPlaceholder, Upsert, RemoveHost, HTTPRefresh, PortOpen, EnrichStart, ApplyRescan;
  }

  /** As long as a host is kept, every rescan that returns it with a latency records its reply again. */
  lemma {:induction false} RescanRecordsAgain(s: Sys, run: seq<Action>, ip: IP, tr: Trace, found: seq<Host>)
    requires Legal(s, run) && Keeps(s, run, ip) && ToldKnown(s, ip, tr) && Enabled(Run(s, run), RescanEnd(found))
    ensures RecordsAgain(RescanEnd(found), ip, TraceAfter(s, run, ip, tr))
       <==> RowOf(found, ip).Some? && RowOf(found, ip).value.latency >= 0
    decreases |run|
  {
    if run == [] {
      FoundIsTold(s, RescanEnd(found), ip);
    } else {
      StepToldKnown(s, run[0], ip, tr);
      hide ToldKnown, Apply, Next, Forgets, RecordsAgain, RowOf, Enabled;
      RescanRecordsAgain(Apply(s, run[0]), run[1..], ip, Next(s, run[0], ip, tr), found);
    }
  }

  // ---- when the samples are the last measured replies ----

  /** Where replies are recorded. */
  function ReplyPlaces(recs: seq<Recording>): (places: seq<int>) {
    if recs == [] then []
    else ReplyPlaces(recs[..|recs| - 1]) + if recs[|recs| - 1].event.Ping? then [|recs| - 1] else []
  }

  /** Where they are recorded first. */
  function FirstPlaces(recs: seq<Recording>): (places: seq<int>) {
    if recs == [] then []
    else
      var last := recs[|recs| - 1];
      FirstPlaces(recs[..|recs| - 1]) + if last.event.Ping? && last.of.None? then [|recs| - 1] else []
  }

  predicate FirstTime(recs: seq<Recording>, p: int) {
    0 <= p < |recs| && recs[p].of.None?
  }

  lemma {:induction false} FirstPlacesAre(recs: seq<Recording>)
    ensures |FirstPlaces(recs)| <= |ReplyPlaces(recs)|
    ensures forall p | p in FirstPlaces(recs) :: FirstTime(recs, p)
  {
    if recs != [] {
      var front := recs[..|recs| - 1];
      FirstPlacesAre(front);
      forall p | p in FirstPlaces(front) ensures FirstTime(recs, p) {
        assert FirstTime(front, p);
      }
    }
  }

  lemma {:induction false} PlacesOfLatencies(recs: seq<Recording>)
    ensures |ReplyPlaces(recs)| == |Pings(Said(recs))| && |FirstPlaces(recs)| == |Pings(Measured(recs))|
  {
    if recs != [] {
      var front, last := recs[..|recs| - 1], recs[|recs| - 1];
      PlacesOfLatencies(front);
      PingsSnoc(Said(front), last.event);
      PingsSnoc(Measured(front), last.event);
      hide Pings;
    }
  }

  lemma PingsSnoc(h: seq<Event>, e: Event)
    ensures Pings(h + [e]) == Pings(h) + if e.Ping? then [e.ms] else []
    ensures Pings(h + []) == Pings(h)
  {
    assert (h + [e])[..|h|] == h && h + [] == h;
  }

  function Last<T>(s: seq<T>, k: nat): (r: seq<T>) {
    if k <= |s| then s[|s| - k..] else s
  }

  lemma LastNothing<T>(s: seq<T>, t: seq<T>)
    ensures Last(s, 0) == Last(t, 0)
  {
    assert Last(s, 0) == [];
  }

  lemma LastSnoc<T>(s: seq<T>, x: T, k: nat)
    requires 0 < k <= |s| + 1
    ensures x in Last(s + [x], k) && forall y | y in Last(s, k - 1) :: y in Last(s + [x], k)
  {
    assert Last(s + [x], k) == Last(s, k - 1) + [x];
  }

  lemma LastGrow<T>(s: seq<T>, t: seq<T>, x: T, k: nat)
    requires 0 < k <= |s| + 1 && k <= |t| + 1 && Last(s, k - 1) == Last(t, k - 1)
    ensures Last(s + [x], k) == Last(t + [x], k)
  {
    assert Last(s + [x], k) == Last(s, k - 1) + [x] && Last(t + [x], k) == Last(t, k - 1) + [x];
  }

  /** The last k latencies measured are the last k recorded, and they stand at the same places. */
  ghost predicate TailsAgree(recs: seq<Recording>, k: nat) {
    && k <= |FirstPlaces(recs)| && Last(FirstPlaces(recs), k) == Last(ReplyPlaces(recs), k)
    && Last(Pings(Measured(recs)), k) == Last(Pings(Said(recs)), k)
  }

  lemma TailGrows(recs: seq<Recording>, k: nat)
    requires recs != [] && recs[|recs| - 1].event.Ping? && recs[|recs| - 1].of.None?
    requires TailsAgree(recs[..|recs| - 1], k)
    ensures TailsAgree(recs, k + 1)
  {
    var front, last := recs[..|recs| - 1], recs[|recs| - 1];
    PlacesSnoc(recs);
    PlacesOfLatencies(front);
    FirstPlacesAre(front);
    hide ReplyPlaces, FirstPlaces, Said, Measured, Pings;
    LastGrow(FirstPlaces(front), ReplyPlaces(front), |recs| - 1, k + 1);
    LastGrow(Pings(Measured(front)), Pings(Said(front)), last.event.ms, k + 1);
    hide Last;
  }

  lemma NoTails(recs: seq<Recording>)
    ensures TailsAgree(recs, 0)
  {
    LastNothing(FirstPlaces(recs), ReplyPlaces(recs));
    LastNothing(Pings(Measured(recs)), Pings(Said(recs)));
    hide Last, ReplyPlaces, FirstPlaces, Said, Measured, Pings;
  }

  lemma TailStays(recs: seq<Recording>, k: nat)
    requires recs != [] && !recs[|recs| - 1].event.Ping?
    ensures TailsAgree(recs, k) <==> TailsAgree(recs[..|recs| - 1], k)
  {
    PlacesSnoc(recs);
    hide Last, ReplyPlaces, FirstPlaces, Said, Measured, Pings;
  }

  /** The last k replies are each recorded first there. */
  ghost predicate LastAreFirst(recs: seq<Recording>, k: nat) {
    k <= |ReplyPlaces(recs)| && forall p | p in Last(ReplyPlaces(recs), k) :: FirstTime(recs, p)
  }

  lemma LastAreFirstInFront(recs: seq<Recording>, k: nat)
    requires k > 0 && LastAreFirst(recs, k)
    ensures recs != []
    ensures var (front, last) := (recs[..|recs| - 1], recs[|recs| - 1]);
            if last.event.Ping? then last.of.None? && LastAreFirst(front, k - 1) else LastAreFirst(front, k)
  {
    assert recs == [] ==> ReplyPlaces(recs) == [];
    var front, last := recs[..|recs| - 1], recs[|recs| - 1];
    ReplyPlacesSnoc(recs);
    hide ReplyPlaces, Last;
    var j := if last.event.Ping? then k - 1 else k;
    if last.event.Ping? {
      LastSnoc(ReplyPlaces(front), |recs| - 1, k);
      assert FirstTime(recs, |recs| - 1);
    }
    forall p | p in Last(ReplyPlaces(front), j) ensures FirstTime(front, p) {
      assert p in Last(ReplyPlaces(recs), k);
      assert FirstTime(recs, p);
      LastInside(front, p, j);
    }
    hide FirstTime;
  }

  lemma LastInside(recs: seq<Recording>, p: int, k: nat)
    requires p in Last(ReplyPlaces(recs), k)
    ensures 0 <= p < |recs|
  {
    PlacesInside(recs, p);
    hide ReplyPlaces;
  }

  lemma {:induction false} SameTail(recs: seq<Recording>, k: nat)
    requires LastAreFirst(recs, k)
    ensures TailsAgree(recs, k)
  {
    hide TailsAgree, LastAreFirst;
    if k == 0 {
      NoTails(recs);
    } else {
      LastAreFirstInFront(recs, k);
      var front, last := recs[..|recs| - 1], recs[|recs| - 1];
      if last.event.Ping? {
        SameTail(front, k - 1);
        TailGrows(recs, k - 1);
      } else {
        SameTail(front, k);
        TailStays(recs, k);
      }
    }
  }

  lemma ReplyPlacesSnoc(recs: seq<Recording>)
    requires recs != []
    ensures var (front, last) := (recs[..|recs| - 1], recs[|recs| - 1]);
            ReplyPlaces(recs) == if last.event.Ping? then ReplyPlaces(front) + [|recs| - 1] else ReplyPlaces(front)
  {
  }

  lemma PlacesSnoc(recs: seq<Recording>)
    requires recs != []
    ensures var (front, last) := (recs[..|recs| - 1], recs[|recs| - 1]);
            var (all, first) := (last.event.Ping?, last.event.Ping? && last.of.None?);
            && ReplyPlaces(recs) == (if all then ReplyPlaces(front) + [|recs| - 1] else ReplyPlaces(front))
            && FirstPlaces(recs) == (if first then FirstPlaces(front) + [|recs| - 1] else FirstPlaces(front))
            && Pings(Said(recs)) == (if all then Pings(Said(front)) + [last.event.ms] else Pings(Said(front)))
            && Pings(Measured(recs))
               == (if first then Pings(Measured(front)) + [last.event.ms] else Pings(Measured(front)))
  {
    var front, last := recs[..|recs| - 1], recs[|recs| - 1];
    PingsSnoc(Said(front), last.event);
    PingsSnoc(Measured(front), last.event);
    hide Pings;
  }

  lemma {:induction false} PlacesInside(recs: seq<Recording>, p: int)
    requires p in ReplyPlaces(recs)
    ensures 0 <= p < |recs|
  {
    if p != |recs| - 1 {
      PlacesInside(recs[..|recs| - 1], p);
    }
  }

  /**
   * The samples are six measurements, the last six there were, exactly when none of the last six
   * replies recorded had been recorded before.
   */
  lemma SamplesAreMeasured(s: Stats, recs: seq<Recording>)
    requires Shows(s, recs)
    ensures Window(ReplyPlaces(recs)) == Window(FirstPlaces(recs))
       <==> forall p | p in Window(ReplyPlaces(recs)) :: FirstTime(recs, p)
    ensures Window(ReplyPlaces(recs)) == Window(FirstPlaces(recs)) ==> s.samples == Window(Pings(Measured(recs)))
  {
    var all, first := ReplyPlaces(recs), FirstPlaces(recs);
    var k := if |all| > WINDOW then WINDOW else |all|;
    FirstPlacesAre(recs);
    PlacesOfLatencies(recs);
    WindowIsLast(all, k);
    WindowIsLast(Pings(Said(recs)), k);
    hide ReplyPlaces, FirstPlaces, Said, Measured, Pings, FirstTime, Last;
    if forall p | p in Window(all) :: FirstTime(recs, p) {
      SameTail(recs, k);
      hide Window;
      WindowIsLast(first, k);
      WindowIsLast(Pings(Measured(recs)), k);
    } else {
      WindowInside(first);
      hide Window;
    }
  }

  lemma WindowIsLast(s: seq<int>, k: nat)
    requires k <= |s| && (k == WINDOW || k == |s| < WINDOW)
    ensures Window(s) == Last(s, k)
  {
  }

  lemma WindowInside(s: seq<int>)
    ensures forall x | x in Window(s) :: x in s
  {
  }

  // ---- replies that are recorded twice ----

  /** The scan's one reply to a ping stands twice among the samples when the watch begins. */
  lemma ScanReplyCountsTwice(h: Host)
    requires h.latency >= 0 && h.status != Dead
    ensures ScanReports([Ready(h)], [h]) && Measured(StartTrace([h], h.ip).recs) == [Ping(h.latency)]
    ensures StatsFor(Start([Ready(h)], [h], [h.ip]).t.stats, h.ip).samples == [h.latency, h.latency]
  {
    var calls := [Ready(h)];
    assert calls[0] in calls && calls[..0] == [] && Callbacks([]) == EMPTY;
    assert Callbacks(calls) == Callback(EMPTY, Ready(h));
    assert RowOf([h], h.ip) == Some(h) && DistinctRows([h]);
    RepeatedMeasured(h.latency);
    FinishActs(Callbacks(calls), [h], [h.ip], h.ip);
    TwoPings(h.latency);
    hide Finish, RowOf, Measured, WithPing, PutRow, UpsertPlaceholder, Placeholders;
  }

  /** The reply by which a host was noticed stands twice once its discovery has finished. */
  lemma DiscoveryReplyCountsTwice(s: Sys, h: Host)
    requires Inv(s) && RowOf(s.t.hosts, h.ip).None? && h.latency >= 0 && h.status != Dead
    requires Enabled(s, Noticed(h.ip, h.latency))
    ensures Legal(s, [Noticed(h.ip, h.latency), Resolved(h)])
    ensures StatsFor(Run(s, [Noticed(h.ip, h.latency), Resolved(h)]).t.stats, h.ip).samples == [h.latency, h.latency]
    ensures Measured(TraceAfter(s, [Noticed(h.ip, h.latency), Resolved(h)], h.ip, NOTHING).recs) == [Ping(h.latency)]
  {
    var a, b := Noticed(h.ip, h.latency), Resolved(h);
    var mid := Apply(s, a);
    DiscoveryTrace(s, h);
    DiscoveryCell(s, h);
    hide WithPing, Apply, Enabled, Inv, RowOf, Measured, NOTHING, Next, Run, Legal, TraceAfter, StatsFor, DistinctRows;
    RunOfTwo(s, a, b);
    TraceOfTwo(s, a, b, h.ip, NOTHING);
  }

  lemma DiscoveryCell(s: Sys, h: Host)
    requires Inv(s) && RowOf(s.t.hosts, h.ip).None? && h.latency >= 0 && h.status != Dead
    requires Enabled(s, Noticed(h.ip, h.latency)) && Enabled(Apply(s, Noticed(h.ip, h.latency)), Resolved(h))
    ensures var after := Apply(Apply(s, Noticed(h.ip, h.latency)), Resolved(h));
            StatsFor(after.t.stats, h.ip).samples == [h.latency, h.latency]
  {
    var a, b := Noticed(h.ip, h.latency), Resolved(h);
    var mid := Apply(s, a);
    assert CellOk(At(s.t, h.ip), Probing(s, h.ip));
    assert At(s.t, h.ip) == Cell(None, None);
    StepKeepsInv(s, a);
    StepActs(s, a, h.ip);
    StepActs(mid, b, h.ip);
    TwoPings(h.latency);
    hide Apply, Enabled, Inv, RowOf, DistinctRows, Probing, WithPing;
    assert At(mid.t, h.ip) == DiscoverCell(Cell(None, None), h.ip, h.latency);
    assert At(Apply(mid, b).t, h.ip) == PutCell(At(mid.t, h.ip), h);
  }

  lemma TwoPings(ms: int)
    ensures WithPing(WithPing(FRESH, ms), ms).samples == [ms, ms]
  {
  }

  lemma RepeatedMeasured(ms: nat)
    ensures Measured([Recording(Ping(ms), None), Recording(Ping(ms), Some(0))]) == [Ping(ms)]
  {
    var one := [Recording(Ping(ms), None)];
    var two := one + [Recording(Ping(ms), Some(0))];
    assert two[..1] == one && one[..0] == [];
    assert Measured(one) == Measured([]) + [Ping(ms)];
    assert Measured(two) == Measured(one) + [];
  }

  lemma DiscoveryTrace(s: Sys, h: Host)
    requires RowOf(s.t.hosts, h.ip).None? && h.latency >= 0 && h.status != Dead
    requires Enabled(s, Noticed(h.ip, h.latency))
    ensures var (a, b) := (Noticed(h.ip, h.latency), Resolved(h));
            Enabled(Apply(s, a), b) && Measured(Next(Apply(s, a), b, h.ip, Next(s, a, h.ip,
                    NOTHING)).recs) == [Ping(h.latency)]
  {
    var a, b := Noticed(h.ip, h.latency), Resolved(h);
    var mid := Apply(s, a);
    RepeatedMeasured(h.latency);
    hide Measured, RowOf, AddPlaceholder;
    var tr := Next(s, a, h.ip, NOTHING);
    assert tr == Trace([Recording(Ping(h.latency), None)], None, Some(0), None);
    assert Next(mid, b, h.ip, tr).recs == tr.recs + [Recording(Ping(h.latency), Some(0))];
  }

  /**
   * A reply to a tick that came while its host was entering the table sets off a discovery all the
   * same, and is recorded again when that has finished.
   */
  lemma TickReplyCountsTwice(s: Sys, pings: map<IP, nat>, arp: map<IP, string>, h: Host, tr: Trace)
    requires Inv(s) && Enabled(s, TickEnd(pings, arp)) && RowOf(s.t.hosts, h.ip).Some?
    requires h.ip in s.tick.value && h.ip in pings && h.latency == pings[h.ip] && h.status != Dead
    requires h.ip !in s.known && h.ip !in s.pending
    ensures var (a, b, c) := (TickEnd(pings, arp), Noticed(h.ip, h.latency), Resolved(h));
            Enabled(Apply(s, a), b) && Enabled(Apply(Apply(s, a), b), c)
    ensures var (a, b, c) := (TickEnd(pings, arp), Noticed(h.ip, h.latency), Resolved(h));
            var (sa, ta) := (Apply(s, a), Next(s, a, h.ip, tr));
            var (sb, tb) := (Apply(sa, b), Next(sa, b, h.ip, ta));
            var again := [Recording(Ping(h.latency), None), Recording(Ping(h.latency), Some(|tr.recs|))];
            Next(sb, c, h.ip, tb).recs == tr.recs + again
  {
    var (a, b, c) := (TickEnd(pings, arp), Noticed(h.ip, h.latency), Resolved(h));
    RowLostOnlyWhenBare(s, a, h.ip);
    hide Inv, RowOf, TickApply, AddPlaceholder, Upsert, DistinctRows;
    var ta := Next(s, a, h.ip, tr);
    var at := Some(|tr.recs|);
    assert ta == Trace(tr.recs + [Recording(Ping(h.latency), None)], at, tr.pending, tr.told);
    var tb := Next(Apply(s, a), b, h.ip, ta);
    assert tb == Trace(ta.recs, None, at, tr.told);
  }

  lemma TraceOfTwo(s: Sys, a: Action, b: Action, ip: IP, tr: Trace)
    requires Legal(s, [a, b])
    ensures Enabled(s, a) && TraceAfter(s, [a, b], ip, tr) == Next(Apply(s, a), b, ip, Next(s, a, ip, tr))
  {
    var mid := Apply(s, a);
    assert [a, b][1..] == [b] && [b][1..] == [];
    hide Apply, Enabled, Next;
    var next := Next(s, a, ip, tr);
    assert TraceAfter(mid, [b], ip, next) == TraceAfter(Apply(mid, b), [], ip, Next(mid, b, ip, next));
  }
}
