/**
 * The ping statistics of one host (tui.go:40-60 and tui.go:752-796) and the history they summarise.
 * Latencies are milliseconds; -1 stands for "none yet".
 */
module PingStats {

  const WINDOW := 6      // successful pings kept for the average
  const DEAD_AFTER := 10 // consecutive misses after which a host is dead

  datatype Stats = Stats(samples: seq<int>, min: int, max: int, misses: nat)

  const FRESH := Stats([], -1, -1, 0)

  /** At most the last WINDOW elements. */
  function Window(all: seq<int>): (w: seq<int>) {
    if |all| > WINDOW then all[|all| - WINDOW..] else all
  }

  /** The statistics after a reply within ms. */
  function WithPing(s: Stats, ms: int): (r: Stats) {
    Stats(Window(s.samples + [ms]),
          if s.min < 0 || ms < s.min then ms else s.min,
          if ms > s.max then ms else s.max,
          0)
  }

  /** The statistics after a missed ping. */
  function WithMiss(s: Stats): (r: Stats) {
    s.(misses := s.misses + 1)
  }

  function Sum(s: seq<int>): (n: int) {
    if s == [] then 0 else Sum(s[..|s| - 1]) + s[|s| - 1]
  }

  lemma {:induction false} SumAdds(a: seq<int>, b: seq<int>)
    ensures Sum(a + b) == Sum(a) + Sum(b)
    ensures forall x :: Sum([x]) == x
  {
    if b == [] {
      assert a + b == a;
    } else {
      SumAdds(a, b[..|b| - 1]);
      assert (a + b)[..|a + b| - 1] == a + b[..|b| - 1];
    }
  }

  /** avg: the mean of the kept samples, which are never negative, rounded down. */
  method Avg(s: Stats) returns (avg: int)
    ensures avg == if s.samples == [] then -1 else Sum(s.samples) / |s.samples|
  {
    if |s.samples| == 0 {
      return -1;
    }
    var sum := 0;
    for i := 0 to |s.samples|
      invariant sum == Sum(s.samples[..i])
    {
      assert s.samples[..i + 1][..i] == s.samples[..i];
      sum := sum + s.samples[i];
    }
    assert s.samples[..|s.samples|] == s.samples;
    return sum / |s.samples|;
  }

  // ---- the history ----

  datatype Event = Ping(ms: nat) | Miss

  /** What the recording functions make of a history, event by event. */
  function Replay(history: seq<Event>): (s: Stats) {
    if history == [] then FRESH
    else
      var before := Replay(history[..|history| - 1]);
      match history[|history| - 1]
      case Ping(ms) => WithPing(before, ms)
      case Miss => WithMiss(before)
  }

  function Pings(history: seq<Event>): (ms: seq<int>) {
    if history == [] then []
    else
      var last := history[|history| - 1];
      Pings(history[..|history| - 1]) + if last.Ping? then [last.ms] else []
  }

  function MissesSincePing(history: seq<Event>): (n: nat) {
    if history == [] || history[|history| - 1].Ping? then 0
    else 1 + MissesSincePing(history[..|history| - 1])
  }

  /** The statistics are a summary of all the pings there ever were. */
  ghost predicate Summarises(s: Stats, history: seq<Event>) {
    var pings := Pings(history);
    && s.samples == (if |pings| > 6 then pings[|pings| - 6..] else pings)
    && (pings == [] ==> s.min == -1 && s.max == -1)
    && (pings != [] ==> s.min in pings && s.max in pings)
    && (forall p | p in pings :: 0 <= s.min <= p <= s.max)
    && s.misses == MissesSincePing(history)
  }

  lemma PingSummarised(s: Stats, history: seq<Event>, ms: nat)
    requires Summarises(s, history)
    ensures Summarises(WithPing(s, ms), history + [Ping(ms)])
  {
    var pings, more := Pings(history), Pings(history + [Ping(ms)]);
    assert (history + [Ping(ms)])[..|history|] == history;
    assert more == pings + [ms];
    hide Pings;
    WindowSlides(pings, ms);
    hide Window;
    forall p | p in more ensures 0 <= WithPing(s, ms).min <= p <= WithPing(s, ms).max {
      assert p in pings || p == ms;
    }
    assert ms in more && forall p | p in pings :: p in more;
  }

  lemma WindowSlides(all: seq<int>, x: int)
    ensures Window(Window(all) + [x]) == Window(all + [x])
  {
  }

  lemma MissSummarised(s: Stats, history: seq<Event>)
    requires Summarises(s, history)
    ensures Summarises(WithMiss(s), history + [Miss])
  {
    assert (history + [Miss])[..|history|] == history;
    assert Pings(history + [Miss]) == Pings(history) + [];
  }

  lemma StartSummarised()
    ensures Summarises(FRESH, [])
  {
  }

  /** The recorded statistics of every history summarise it. */
  lemma {:induction false} ReplaySummarises(history: seq<Event>)
    ensures Summarises(Replay(history), history)
  {
    StartSummarised();
    hide Summarises, Pings, MissesSincePing;
    if history != [] {
      var front, last := history[..|history| - 1], history[|history| - 1];
      ReplaySummarises(front);
      assert history == front + [last];
      match last
      case Ping(ms) => PingSummarised(Replay(front), front, ms);
      case Miss => MissSummarised(Replay(front), front);
    }
  }

  lemma {:induction false} SumBetween(s: seq<int>, low: int, high: int)
    requires forall x | x in s :: low <= x <= high
    ensures low * |s| <= Sum(s) <= high * |s|
  {
    if s != [] {
      var front, last := s[..|s| - 1], s[|s| - 1];
      assert last in s && forall x | x in front :: x in s;
      SumBetween(front, low, high);
      assert low * |s| == low * |front| + low && high * |s| == high * |front| + high;
    }
  }

  lemma TimesMonotone(a: int, b: int, n: nat)
    requires a <= b
    ensures a * n <= b * n
  {
  }

  lemma MeanBetween(sum: int, n: nat, low: int, high: int)
    requires n > 0 && low * n <= sum <= high * n
    ensures low <= sum / n <= high
  {
    var q := sum / n;
    assert q * n <= sum < q * n + n;
    if q < low {
      TimesMonotone(q + 1, low, n);
    } else if q > high {
      TimesMonotone(high + 1, q, n);
    }
  }

  /** The average the user sees lies between the minimum and the maximum shown beside it. */
  lemma AverageInRange(s: Stats, history: seq<Event>)
    requires Summarises(s, history) && Pings(history) != []
    ensures s.samples != [] && s.min <= Sum(s.samples) / |s.samples| <= s.max
  {
    forall x | x in s.samples ensures s.min <= x <= s.max {
      assert x in Pings(history);
    }
    SumBetween(s.samples, s.min, s.max);
    hide Sum, Summarises;
    MeanBetween(Sum(s.samples), |s.samples|, s.min, s.max);
  }
}
