/** Which addresses the ping ticks reach, and what a late HTTP report can do to a row. */
module Sweeps {
  import opened Wrappers
  import opened Sorting
  import opened HostTable
  import opened HostCells
  import opened WatchRuns

  function Flatten(chunks: seq<seq<IP>>): (ips: seq<IP>) {
    if chunks == [] then [] else chunks[0] + Flatten(chunks[1..])
  }

  lemma {:induction false} FlattenConcat(a: seq<seq<IP>>, b: seq<seq<IP>>)
    ensures Flatten(a + b) == Flatten(a) + Flatten(b)
  {
    if a == [] {
      assert a + b == b;
    } else {
      FlattenConcat(a[1..], b);
      assert (a + b)[1..] == a[1..] + b && (a + b)[0] == a[0];
      assert Flatten(a + b) == a[0] + Flatten(a[1..] + b) && Flatten(a) == a[0] + Flatten(a[1..]);
      hide Flatten;
    }
  }

  /** splitIPChunks cuts the list, in order, into chunks that are full except for the last. */
  lemma {:induction false} ChunksPartition(ips: seq<IP>, size: int)
    requires size > 0
    ensures var chunks := Chunks(ips, size);
            && Flatten(chunks) == ips
            && |chunks| >= 1
            && (forall i | 0 <= i < |chunks| - 1 :: |chunks[i]| == size)
            && |chunks[|chunks| - 1]| <= size
            && (ips != [] ==> chunks[|chunks| - 1] != [])
    decreases |ips|
  {
    if |ips| <= size {
      assert Flatten([ips]) == ips + Flatten([]);
    } else {
      ChunksPartition(ips[size..], size);
      var first, rest := ips[..size], Chunks(ips[size..], size);
      hide Chunks;
      assert Flatten([first] + rest) == first + Flatten(rest) by {
        assert ([first] + rest)[1..] == rest;
      }
      assert Chunks(ips, size) == [first] + rest by {
        ChunksStep(ips, size);
      }
    }
  }

  lemma ChunksStep(ips: seq<IP>, size: int)
    requires 0 < size < |ips|
    ensures Chunks(ips, size) == [ips[..size]] + Chunks(ips[size..], size)
  {
  }

  lemma {:induction false} FullChunks(chunks: seq<seq<IP>>, size: int)
    requires forall i | 0 <= i < |chunks| :: |chunks[i]| == size
    ensures |Flatten(chunks)| == |chunks| * size
  {
    if chunks != [] {
      FullChunks(chunks[1..], size);
    }
  }

  // ---- the sweep over a run ----

  /** The addresses each tick of the run sets out to ping; a tick during a rescan is skipped. */
  ghost function Batches(s: Sys, run: seq<Action>): (batches: seq<seq<IP>>)
    requires Legal(s, run)
    decreases |run|
  {
    if run == [] then []
    else (if run[0].TickStart? && !s.t.rescanning then [TickSnapshot(s.t).1] else [])
         + Batches(Apply(s, run[0]), run[1..])
  }

  lemma StepMovesCursor(s: Sys, a: Action)
    requires Enabled(s, a) && FrameOk(s)
    ensures var t := Apply(s, a).t;
            && t.chunks == s.t.chunks && t.smallNet == s.t.smallNet && t.ips == s.t.ips
            && t.pingChunk == if a.TickStart? && !s.t.rescanning && !s.t.smallNet
                              then Turn(s.t.pingChunk, 1, |s.t.chunks|) else s.t.pingChunk
  {
    hide TickApply, FastApply, AddPlaceholder, Upsert, RemoveHost, HTTPRefresh, PortOpen, RowOf, DistinctRows, Distinct;
    hide Chunks, Placeholders, Reconcile, RecordAll, Addresses, Suspect, Turn;
    if a.TickStart? {
      TickMovesCursor(s.t);
    }
    hide TickSnapshot;
  }

  lemma TickMovesCursor(t: Table)
    requires t.pingChunk < |t.chunks|
    ensures var r := TickSnapshot(t).0;
            && r.chunks == t.chunks && r.smallNet == t.smallNet && r.ips == t.ips
            && r.pingChunk == if !t.rescanning && !t.smallNet then Turn(t.pingChunk, 1, |t.chunks|) else t.pingChunk
  {
  }

  /** The chunk j turns after chunk c, of k. */
  function Turn(c: nat, j: nat, k: nat): (i: nat)
    requires k > 0
    ensures i < k
  {
    (c + j) % k
  }

  lemma TurnNext(c: nat, j: nat, k: nat)
    requires c < k
    ensures Turn(c, 0, k) == c && Turn(Turn(c, 1, k), j, k) == Turn(c, j + 1, k)
  {
    TurnOnce(c, 0, k);
    if c + 1 == k {
      ModUnique(c + 1, k, 1, 0);
      ModPeriod(j, k);
    } else {
      ModUnique(c + 1, k, 0, c + 1);
    }
  }

  lemma TurnOnce(c: nat, j: nat, k: nat)
    requires c < k && j < k
    ensures Turn(c, j, k) == if c + j < k then c + j else c + j - k
  {
    if c + j < k {
      ModUnique(c + j, k, 0, c + j);
    } else {
      ModUnique(c + j, k, 1, c + j - k);
    }
  }

  lemma ModPeriod(j: nat, k: nat)
    requires k > 0
    ensures (k + j) % k == j % k
  {
    assert k + j == k * (1 + j / k) + j % k;
    ModUnique(k + j, k, 1 + j / k, j % k);
  }

  lemma ModUnique(x: nat, k: nat, q: nat, r: nat)
    requires k > 0 && x == k * q + r && r < k
    ensures x % k == r
  {
    var d := x / k;
    assert x == k * d + x % k;
    if q < d {
      PingStats.TimesMonotone(q + 1, d, k);
    } else if q > d {
      PingStats.TimesMonotone(d + 1, q, k);
    }
  }

  /** The batches of the rest of a run, and the batch of its first step if that is a tick. */
  lemma GoRound(now: seq<seq<IP>>, rest: seq<seq<IP>>, chunks: seq<seq<IP>>, c: nat)
    requires c < |chunks| && (now == [] || now == [chunks[c]])
    requires var next := if now == [] then c else Turn(c, 1, |chunks|);
             forall j | 0 <= j < |rest| :: rest[j] == chunks[Turn(next, j, |chunks|)]
    ensures forall j | 0 <= j < |now + rest| :: (now + rest)[j] == chunks[Turn(c, j, |chunks|)]
  {
    TurnNext(c, 0, |chunks|);
    if now == [] {
      assert now + rest == rest;
    } else {
      forall j | 0 < j < |now + rest| ensures (now + rest)[j] == chunks[Turn(c, j, |chunks|)] {
        TurnNext(c, j - 1, |chunks|);
        hide Turn;
        assert (now + rest)[j] == rest[j - 1];
      }
    }
  }

  /** On a large network the ticks take the chunks round and round. */
  lemma {:induction false} BatchesGoRound(s: Sys, run: seq<Action>)
    requires FrameOk(s) && !s.t.smallNet && Legal(s, run)
    ensures forall j | 0 <= j < |Batches(s, run)| ::
              Batches(s, run)[j] == s.t.chunks[Turn(s.t.pingChunk, j, |s.t.chunks|)]
    decreases |run|
  {
    if run != [] {
      var a, r := run[0], Apply(s, run[0]);
      StepKeepsFrame(s, a);
      StepMovesCursor(s, a);
      var now := if a.TickStart? && !s.t.rescanning then [TickSnapshot(s.t).1] else [];
      assert now == [] || now == [s.t.chunks[s.t.pingChunk]];
      hide Apply, FrameOk, Enabled;
      BatchesGoRound(r, run[1..]);
      GoRound(now, Batches(r, run[1..]), s.t.chunks, s.t.pingChunk);
    }
  }

  /** On a small network every tick that is not skipped pings everything. */
  lemma {:induction false} SmallNetBatches(s: Sys, run: seq<Action>)
    requires FrameOk(s) && s.t.smallNet && Legal(s, run)
    ensures forall j | 0 <= j < |Batches(s, run)| :: Batches(s, run)[j] == s.t.ips
    decreases |run|
  {
    if run != [] {
      StepKeepsFrame(s, run[0]);
      StepMovesCursor(s, run[0]);
      hide Apply, FrameOk;
      SmallNetBatches(Apply(s, run[0]), run[1..]);
    }
  }

  /**
   * As many ticks as there are chunks, with anything in between, ping every position of the address
   * list exactly once: together their batches are the list, rotated to start where the first began.
   */
  lemma SweepIsRotation(s: Sys, run: seq<Action>)
    requires Inv(s) && !s.t.smallNet && Legal(s, run) && |Batches(s, run)| == |s.t.chunks|
    ensures var p := s.t.pingChunk * CHUNK;
            p <= |s.t.ips| && Flatten(Batches(s, run)) == s.t.ips[p..] + s.t.ips[..p]
  {
    BatchesGoRound(s, run);
    ChunksPartition(s.t.ips, CHUNK);
    hide Batches, Legal, Chunks, Flatten;
    Rotation(s.t.chunks, Batches(s, run), s.t.pingChunk);
    FullChunks(s.t.chunks[..s.t.pingChunk], CHUNK);
  }

  lemma Rotation(chunks: seq<seq<IP>>, all: seq<seq<IP>>, c: nat)
    requires c < |chunks| == |all| && forall j | 0 <= j < |all| :: all[j] == chunks[Turn(c, j, |chunks|)]
    ensures var p := |Flatten(chunks[..c])|;
            p <= |Flatten(chunks)| && Flatten(all) == Flatten(chunks)[p..] + Flatten(chunks)[..p]
  {
    var k := |chunks|;
    hide Flatten;
    assert all == chunks[c..] + chunks[..c] by {
      forall j | 0 <= j < k ensures all[j] == (chunks[c..] + chunks[..c])[j] {
        TurnOnce(c, j, k);
        hide Turn;
      }
    }
    FlattenConcat(chunks[c..], chunks[..c]);
    FlattenConcat(chunks[..c], chunks[c..]);
    assert chunks[..c] + chunks[c..] == chunks;
  }

  /** The sweep a watch begins with: chunks of 256 addresses, from the first one on. */
  lemma SweepBegins(t: Table, found: seq<Host>, ips: seq<IP>)
    ensures var r := Finish(t, found, ips);
            && Flatten(r.chunks) == ips && r.pingChunk == 0 && |r.chunks| >= 1
            && (forall i | 0 <= i < |r.chunks| - 1 :: |r.chunks[i]| == 256) && |r.chunks[|r.chunks| - 1]| <= 256
            && (r.smallNet <==> |ips| <= 256)
            && r.ips == ips && r.phase == Watch && r.autoPing
  {
    ChunksPartition(ips, 256);
    hide Chunks, Flatten, RecordAll;
  }

  // ---- HTTP reports ----

  /** The first probed port with that number that has a response. */
  function Response(probed: seq<Port>, number: nat): (p: Option<Port>) {
    if probed == [] then None
    else if Response(probed[..|probed| - 1], number).Some? then Response(probed[..|probed| - 1], number)
    else
      var last := probed[|probed| - 1];
      if last.number == number && last.http != "" then Some(last) else None
  }

  lemma {:induction false} NoResponse(probed: seq<Port>, number: nat)
    requires forall p | p in probed :: p.number != number || p.http == ""
    ensures Response(probed, number) == None
  {
    if probed != [] {
      assert probed[|probed| - 1] in probed;
      NoResponse(probed[..|probed| - 1], number);
    }
  }

  lemma {:induction false} ResponseIsFirst(probed: seq<Port>, k: nat, number: nat)
    requires k < |probed| && probed[k].number == number && probed[k].http != ""
    requires forall j | 0 <= j < k :: probed[j].number != number || probed[j].http == ""
    ensures Response(probed, number) == Some(probed[k])
  {
    if k < |probed| - 1 {
      ResponseIsFirst(probed[..|probed| - 1], k, number);
    } else {
      NoResponse(probed[..|probed| - 1], number);
    }
  }

  ghost predicate DistinctPorts(ports: seq<Port>) {
    forall i, j | 0 <= i < j < |ports| :: ports[i].number != ports[j].number
  }

  /**
   * A late HTTP report fills ports that have no response yet, each with the first response it brings
   * for that port, and touches nothing else: it can never replace what a newer scan has found.
   */
  lemma {:induction false} HTTPOnlyFillsGaps(ports: seq<Port>, probed: seq<Port>)
    requires DistinctPorts(ports)
    ensures var r := FillPorts(ports, probed);
            forall j | 0 <= j < |ports| ::
              && r[j].number == ports[j].number
              && r[j] == if ports[j].http == "" && Response(probed, ports[j].number).Some?
                         then Response(probed, ports[j].number).value else ports[j]
  {
    if probed != [] {
      var front, last := probed[..|probed| - 1], probed[|probed| - 1];
      HTTPOnlyFillsGaps(ports, front);
      var before := FillPorts(ports, front);
      assert FillPorts(ports, probed) == FillPort(before, last);
      ResponseIsOne(front);
    }
  }

  lemma {:induction false} ResponseIsOne(probed: seq<Port>)
    ensures forall n | Response(probed, n).Some? ::
              Response(probed, n).value.number == n && Response(probed, n).value.http != ""
  {
    if probed != [] {
      ResponseIsOne(probed[..|probed| - 1]);
    }
  }
}
