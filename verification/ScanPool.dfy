/**
 * The worker pool of scanNetwork (main.go:965-1048) as a transition system: every goroutine's
 * statements on shared state are atomic actions, and a run is any interleaving of enabled actions.
 */
module ScanPool {
  // The goroutines are one producer, which also waits for the workers and closes the results,
  // `concurrency` workers, and the consumer; between them are a bounded `jobs` channel and a bounded
  // `results` channel. Jobs are numbered in the order in which the producer sends them. scanPort is an
  // oracle: `open` holds the jobs it answers "open" to. A cancelled context only makes it answer
  // "closed", so cancelled runs are covered too.

  import opened Wrappers
  import opened Sorting

  datatype Setup = Setup(total: nat, concurrency: nat, open: set<nat>)

  /** Where a worker stands in its loop body. */
  datatype Worker = Idle | Probing(job: nat) | Sending(job: nat) | Counting | Exited

  datatype Producer = Feeding | Waiting | Closing | Finished

  /**
   * `dropped` lists the jobs that were scanned and found closed; `panicked` records a send on, or a
   * second close of, a closed channel.
   */
  datatype State = State(next: nat, producer: Producer, jobs: seq<nat>, jobsClosed: bool, workers: seq<Worker>,
                         results: seq<nat>, resultsClosed: bool, consumed: seq<nat>, consumerDone: bool,
                         scanned: nat, dropped: seq<nat>, panicked: bool)

  datatype Action =
    | Feed | CloseJobs | Wait | CloseResults
    | Take(w: nat) | Exit(w: nat) | Probe(w: nat) | Send(w: nat) | Count(w: nat)
    | Receive | Stop

  function Init(c: Setup): (s: State) {
    State(0, Feeding, [], false, seq(c.concurrency, _ => Idle), [], false, [], false, 0, [], false)
  }

  /**
   * Whether an action can happen. A send waits for room, except on a closed channel, where it does
   * not wait but panics; a receive waits for an element or for the close.
   */
  predicate Enabled(c: Setup, s: State, a: Action) {
    && !s.panicked
    && match a {
         case Feed => s.producer.Feeding? && s.next < c.total && (s.jobsClosed || |s.jobs| < 2 * c.concurrency)
         case CloseJobs => s.producer.Feeding? && s.next == c.total
         case Wait => s.producer.Waiting? && forall w | w in s.workers :: w.Exited?
         case CloseResults => s.producer.Closing?
         case Take(w) => w < |s.workers| && s.workers[w].Idle? && s.jobs != []
         case Exit(w) => w < |s.workers| && s.workers[w].Idle? && s.jobs == [] && s.jobsClosed
         case Probe(w) => w < |s.workers| && s.workers[w].Probing?
         case Send(w) => w < |s.workers| && s.workers[w].Sending? && (s.resultsClosed || |s.results| < c.concurrency)
         case Count(w) => w < |s.workers| && s.workers[w].Counting?
         case Receive => !s.consumerDone && s.results != []
         case Stop => !s.consumerDone && s.results == [] && s.resultsClosed
       }
  }

  function Apply(c: Setup, s: State, a: Action): (s': State)
    requires Enabled(c, s, a)
  {
    match a
    case Feed =>
      if s.jobsClosed then s.(panicked := true) else s.(jobs := s.jobs + [s.next], next := s.next + 1)
    case CloseJobs =>
      if s.jobsClosed then s.(panicked := true) else s.(jobsClosed := true, producer := Waiting)
    case Wait => s.(producer := Closing)
    case CloseResults =>
      if s.resultsClosed then s.(panicked := true) else s.(resultsClosed := true, producer := Finished)
    case Take(w) => s.(jobs := s.jobs[1..], workers := s.workers[w := Probing(s.jobs[0])])
    case Exit(w) => s.(workers := s.workers[w := Exited])
    case Probe(w) =>
      var job := s.workers[w].job;
      if job in c.open then s.(workers := s.workers[w := Sending(job)])
      else s.(workers := s.workers[w := Counting], dropped := s.dropped + [job])
    case Send(w) =>
      if s.resultsClosed then s.(panicked := true)
      else s.(results := s.results + [s.workers[w].job], workers := s.workers[w := Counting])
    case Count(w) => s.(scanned := s.scanned + 1, workers := s.workers[w := Idle])
    case Receive => s.(results := s.results[1..], consumed := s.consumed + [s.results[0]])
    case Stop => s.(consumerDone := true)
  }

  /** The state after a sequence of actions, if all of them were enabled in turn. */
  function Run(c: Setup, s: State, actions: seq<Action>): (r: Option<State>)
    decreases |actions|
  {
    if actions == [] then Some(s)
    else if Enabled(c, s, actions[0]) then Run(c, Apply(c, s, actions[0]), actions[1..])
    else None
  }

  /** scanNetwork has left its result loop and every goroutine of the pool has returned. */
  predicate Final(s: State) {
    s.consumerDone && s.producer.Finished? && forall w | w in s.workers :: w.Exited?
  }

  // ---- where the jobs are ----

  function Range(from: nat, to: nat): (r: seq<nat>)
    requires from <= to
  {
    seq(to - from, i requires 0 <= i < to - from => from + i)
  }

  function HeldBy(w: Worker, job: nat): (n: nat) {
    if (w.Probing? || w.Sending?) && w.job == job then 1 else 0
  }

  /** How many workers have the job in hand. */
  function Held(workers: seq<Worker>, job: nat): (n: nat) {
    if workers == [] then 0 else HeldBy(workers[0], job) + Held(workers[1..], job)
  }

  function CountingWorkers(workers: seq<Worker>): (n: nat) {
    if workers == [] then 0 else (if workers[0].Counting? then 1 else 0) + CountingWorkers(workers[1..])
  }

  function Occurs(s: seq<nat>, job: nat): (n: nat) {
    multiset(s)[job]
  }

  /** In how many places a job is. */
  function Places(c: Setup, s: State, job: nat): (n: nat) {
    (if s.next <= job < c.total then 1 else 0) + Occurs(s.jobs, job) + Held(s.workers, job)
    + Occurs(s.results, job) + Occurs(s.consumed, job) + Occurs(s.dropped, job)
  }

  lemma OccursEnds(s: seq<nat>, x: nat, job: nat)
    ensures Occurs(s + [x], job) == Occurs(s, job) + if x == job then 1 else 0
    ensures s != [] ==> Occurs(s, job) == Occurs(s[1..], job) + if s[0] == job then 1 else 0
  {
    if s != [] {
      assert s == [s[0]] + s[1..];
    }
  }

  lemma {:induction false} HeldUpdate(workers: seq<Worker>, i: nat, w: Worker, job: nat)
    requires i < |workers|
    ensures Held(workers[i := w], job) + HeldBy(workers[i], job) == Held(workers, job) + HeldBy(w, job)
  {
    if i > 0 {
      HeldUpdate(workers[1..], i - 1, w, job);
      assert workers[i := w][1..] == workers[1..][i - 1 := w];
    } else {
      assert workers[i := w][1..] == workers[1..];
    }
  }

  lemma {:induction false} CountingUpdate(workers: seq<Worker>, i: nat, w: Worker)
    requires i < |workers|
    ensures CountingWorkers(workers[i := w]) + (if workers[i].Counting? then 1 else 0)
         == CountingWorkers(workers) + (if w.Counting? then 1 else 0)
  {
    if i > 0 {
      CountingUpdate(workers[1..], i - 1, w);
      assert workers[i := w][1..] == workers[1..][i - 1 := w];
    } else {
      assert workers[i := w][1..] == workers[1..];
    }
  }

  lemma {:induction false} HeldOfQuiet(workers: seq<Worker>)
    requires forall w | w in workers :: w.Idle? || w.Exited?
    ensures (forall job: nat :: Held(workers, job) == 0) && CountingWorkers(workers) == 0
  {
    if workers != [] {
      assert workers[0] in workers && forall w | w in workers[1..] :: w in workers;
      HeldOfQuiet(workers[1..]);
    }
  }

  // ---- the invariant ----

  /** Channels and goroutines agree on how far the shutdown has come. */
  ghost predicate Shape(c: Setup, s: State) {
    && |s.workers| == c.concurrency
    && s.next <= c.total
    && |s.jobs| <= 2 * c.concurrency
    && |s.results| <= c.concurrency
    && !s.panicked
    && (s.jobsClosed <==> !s.producer.Feeding?)
    && (s.jobsClosed ==> s.next == c.total)
    && (s.resultsClosed <==> s.producer.Finished?)
    && (s.producer.Closing? || s.producer.Finished? ==> forall w | w in s.workers :: w.Exited?)
    && ((exists w :: w in s.workers && w.Exited?) ==> s.jobs == [] && s.jobsClosed)
    && (s.consumerDone ==> s.results == [] && s.resultsClosed)
  }

  /** Only open jobs are on their way to the consumer, and only closed ones were dropped. */
  ghost predicate Honest(c: Setup, s: State) {
    && (forall w | w in s.workers && w.Sending? :: w.job in c.open)
    && (forall j | j in s.results || j in s.consumed :: j in c.open)
    && (forall j | j in s.dropped :: j !in c.open)
  }

  /** No job is lost or doubled, and `scanned` is behind only by the workers about to count. */
  ghost predicate Conserved(c: Setup, s: State) {
    && (forall job: nat :: Places(c, s, job) == if job < c.total then 1 else 0)
    && s.scanned + CountingWorkers(s.workers) == |s.consumed| + |s.results| + |s.dropped|
  }

  ghost predicate Inv(c: Setup, s: State) {
    Shape(c, s) && Honest(c, s) && Conserved(c, s)
  }

  lemma InitInv(c: Setup)
    ensures Inv(c, Init(c))
  {
    HeldOfQuiet(Init(c).workers);
  }

  predicate OfWorker(a: Action) {
    a.Take? || a.Exit? || a.Probe? || a.Send? || a.Count?
  }

  lemma MemberAfterUpdate(workers: seq<Worker>, i: nat, w: Worker)
    requires i < |workers|
    ensures forall x | x in workers[i := w] :: x == w || x in workers
    ensures w in workers[i := w] && workers[i] in workers
  {
    assert workers[i := w][i] == w;
  }

  lemma StepShape(c: Setup, s: State, a: Action)
    requires Shape(c, s) && Enabled(c, s, a)
    ensures Shape(c, Apply(c, s, a))
  {
    if OfWorker(a) {
      MemberAfterUpdate(s.workers, a.w, Apply(c, s, a).workers[a.w]);
    }
  }

  lemma StepHonest(c: Setup, s: State, a: Action)
    requires Shape(c, s) && Honest(c, s) && Enabled(c, s, a)
    ensures Honest(c, Apply(c, s, a))
  {
    if OfWorker(a) {
      MemberAfterUpdate(s.workers, a.w, Apply(c, s, a).workers[a.w]);
    }
  }

  /** Every action moves a job from one place to the next, or moves none. */
  lemma StepPlaces(c: Setup, s: State, a: Action, job: nat)
    requires Shape(c, s) && Enabled(c, s, a)
    ensures Places(c, Apply(c, s, a), job) == Places(c, s, job)
  {
    hide Held, Occurs;
    if OfWorker(a) {
      WorkerPlaces(c, s, a, job);
    } else if a.Feed? {
      OccursEnds(s.jobs, s.next, job);
    } else if a.Receive? {
      OccursEnds(s.results, 0, job);
      OccursEnds(s.consumed, s.results[0], job);
    }
  }

  lemma WorkerPlaces(c: Setup, s: State, a: Action, job: nat)
    requires Shape(c, s) && Enabled(c, s, a) && OfWorker(a)
    ensures Places(c, Apply(c, s, a), job) == Places(c, s, job)
  {
    hide Held, Occurs;
    var s' := Apply(c, s, a);
    var before, after := s.workers[a.w], s'.workers[a.w];
    assert before in s.workers;
    HeldUpdate(s.workers, a.w, after, job);
    match a
    case Take(w) => OccursEnds(s.jobs, 0, job);
    case Probe(w) => OccursEnds(s.dropped, before.job, job);
    case Send(w) => OccursEnds(s.results, before.job, job);
    case Exit(w) =>
    case Count(w) =>
  }

  lemma StepConserved(c: Setup, s: State, a: Action)
    requires Shape(c, s) && Conserved(c, s) && Enabled(c, s, a)
    ensures Conserved(c, Apply(c, s, a))
  {
    forall job: nat ensures Places(c, Apply(c, s, a), job) == if job < c.total then 1 else 0 {
      StepPlaces(c, s, a, job);
    }
    if OfWorker(a) {
      assert s.workers[a.w] in s.workers;
      CountingUpdate(s.workers, a.w, Apply(c, s, a).workers[a.w]);
    }
    hide Places;
  }

  lemma StepInv(c: Setup, s: State, a: Action)
    requires Inv(c, s) && Enabled(c, s, a)
    ensures Inv(c, Apply(c, s, a))
  {
    hide Shape, Honest, Conserved;
    StepShape(c, s, a);
    StepHonest(c, s, a);
    StepConserved(c, s, a);
  }

  lemma {:induction false} RunInv(c: Setup, s: State, actions: seq<Action>)
    requires Inv(c, s) && Run(c, s, actions).Some?
    ensures Inv(c, Run(c, s, actions).value)
    decreases |actions|
  {
    hide Inv;
    if actions != [] {
      StepInv(c, s, actions[0]);
      RunInv(c, Apply(c, s, actions[0]), actions[1..]);
    }
  }

  /**
   * In every interleaving each job is in exactly one place: unsent, in `jobs`, in a worker's hands,
   * in `results`, consumed, or scanned and closed. No channel is sent to or closed after its close.
   */
  lemma EveryJobInOnePlace(c: Setup, actions: seq<Action>)
    requires Run(c, Init(c), actions).Some?
    ensures var s := Run(c, Init(c), actions).value;
            && s.next <= c.total && !s.panicked
            && (forall job: nat :: Places(c, s, job) == if job < c.total then 1 else 0)
            && (forall w | w in s.workers && w.Sending? :: !s.resultsClosed)
            && (s.producer.Feeding? ==> !s.jobsClosed)
  {
    InitInv(c);
    RunInv(c, Init(c), actions);
  }

  // ---- no deadlock ----

  /** In every reachable state that is not final some action is enabled. */
  lemma Progress(c: Setup, s: State) returns (a: Action)
    requires Inv(c, s) && !Final(s)
    requires c.concurrency >= 1 || c.total == 0
    ensures Enabled(c, s, a)
  {
    if w :| 0 <= w < |s.workers| && s.workers[w].Probing? {
      return Probe(w);
    }
    if w :| 0 <= w < |s.workers| && s.workers[w].Counting? {
      return Count(w);
    }
    if s.results != [] {
      return Receive;
    }
    if w :| 0 <= w < |s.workers| && s.workers[w].Sending? {
      return Send(w);
    }
    if w :| 0 <= w < |s.workers| && s.workers[w].Idle? && (s.jobs != [] || s.jobsClosed) {
      return if s.jobs != [] then Take(w) else Exit(w);
    }
    assert forall w | w in s.workers :: w.Idle? || w.Exited?;
    assert |s.workers| > 0 ==> s.workers[0] in s.workers;
    match s.producer
    case Feeding => a := if s.next < c.total then Feed else CloseJobs;
    case Waiting => a := Wait;
    case Closing => a := CloseResults;
    case Finished => a := Stop;
  }

  lemma NeverDeadlocks(c: Setup, actions: seq<Action>)
    requires c.concurrency >= 1 || c.total == 0
    requires Run(c, Init(c), actions).Some?
    ensures var s := Run(c, Init(c), actions).value;
            Final(s) || exists a :: Enabled(c, s, a)
  {
    InitInv(c);
    RunInv(c, Init(c), actions);
    var s := Run(c, Init(c), actions).value;
    if !Final(s) {
      var a := Progress(c, s);
    }
  }

  /** Without workers the first send blocks for good: this is why the concurrency is checked. */
  lemma NoWorkersDeadlock(c: Setup, a: Action)
    requires c.concurrency == 0 && c.total > 0
    ensures !Final(Init(c)) && !Enabled(c, Init(c), a)
  {
  }

  // ---- termination, with the exact number of steps ----

  /** Actions still to come for a job that needs `base` of them if it is closed; an open one needs two more. */
  function JobWork(c: Setup, job: nat, base: nat): (n: nat) {
    base + if job in c.open then 2 else 0
  }

  function QueueWork(c: Setup, jobs: seq<nat>, base: nat): (n: nat) {
    if jobs == [] then 0 else JobWork(c, jobs[0], base) + QueueWork(c, jobs[1..], base)
  }

  function WorkerWork(c: Setup, w: Worker): (n: nat) {
    match w
    case Exited => 0
    case Idle => 1
    case Counting => 2
    case Sending(_) => 4
    case Probing(job) => 1 + JobWork(c, job, 2)
  }

  function CrewWork(c: Setup, workers: seq<Worker>): (n: nat) {
    if workers == [] then 0 else WorkerWork(c, workers[0]) + CrewWork(c, workers[1..])
  }

  /** The number of actions until the pool is final. */
  function Remaining(c: Setup, s: State): (n: nat)
    requires s.next <= c.total
  {
    QueueWork(c, Range(s.next, c.total), 4) + QueueWork(c, s.jobs, 3) + CrewWork(c, s.workers) + |s.results|
    + (match s.producer case Feeding => 3 case Waiting => 2 case Closing => 1 case Finished => 0)
    + (if s.consumerDone then 0 else 1)
  }

  lemma {:induction false} CrewUpdate(c: Setup, workers: seq<Worker>, i: nat, w: Worker)
    requires i < |workers|
    ensures CrewWork(c, workers[i := w]) + WorkerWork(c, workers[i]) == CrewWork(c, workers) + WorkerWork(c, w)
  {
    if i > 0 {
      CrewUpdate(c, workers[1..], i - 1, w);
      assert workers[i := w][1..] == workers[1..][i - 1 := w];
    } else {
      assert workers[i := w][1..] == workers[1..];
    }
  }

  lemma {:induction false} QueueSnoc(c: Setup, jobs: seq<nat>, job: nat, base: nat)
    ensures QueueWork(c, jobs + [job], base) == QueueWork(c, jobs, base) + JobWork(c, job, base)
  {
    if jobs == [] {
      assert jobs + [job] == [job];
    } else {
      assert (jobs + [job])[1..] == jobs[1..] + [job];
      QueueSnoc(c, jobs[1..], job, base);
    }
  }

  /** Every action takes exactly one step off. */
  lemma StepLowersRemaining(c: Setup, s: State, a: Action)
    requires Inv(c, s) && Enabled(c, s, a)
    ensures Apply(c, s, a).next <= c.total
    ensures Remaining(c, Apply(c, s, a)) == Remaining(c, s) - 1
  {
    hide CrewWork, Honest, Conserved;
    var s' := Apply(c, s, a);
    if OfWorker(a) {
      assert s.workers[a.w] in s.workers;
      CrewUpdate(c, s.workers, a.w, s'.workers[a.w]);
    } else if a.Feed? {
      assert Range(s.next, c.total) == [s.next] + Range(s.next + 1, c.total);
      QueueSnoc(c, s.jobs, s.next, 3);
    }
  }

  lemma {:induction false} QuietCrewWork(c: Setup, workers: seq<Worker>)
    ensures (forall w | w in workers :: w.Idle?) ==> CrewWork(c, workers) == |workers|
    ensures (forall w | w in workers :: w.Exited?) ==> CrewWork(c, workers) == 0
  {
    if workers != [] {
      assert workers[0] in workers && forall w | w in workers[1..] :: w in workers;
      QuietCrewWork(c, workers[1..]);
    }
  }

  lemma {:induction false} RunLength(c: Setup, s: State, actions: seq<Action>)
    requires Inv(c, s) && Run(c, s, actions).Some?
    ensures Run(c, s, actions).value.next <= c.total
    ensures |actions| + Remaining(c, Run(c, s, actions).value) == Remaining(c, s)
    decreases |actions|
  {
    if actions != [] {
      StepInv(c, s, actions[0]);
      StepLowersRemaining(c, s, actions[0]);
      RunLength(c, Apply(c, s, actions[0]), actions[1..]);
    }
  }

  lemma {:induction false} RangeWork(c: Setup, from: nat)
    requires from <= c.total
    ensures QueueWork(c, Range(from, c.total), 4)
         == 4 * (c.total - from) + 2 * |set j | from <= j < c.total && j in c.open|
    decreases c.total - from
  {
    var opens := set j | from <= j < c.total && j in c.open;
    if from < c.total {
      RangeWork(c, from + 1);
      assert Range(from, c.total) == [from] + Range(from + 1, c.total);
      var fewer := set j | from + 1 <= j < c.total && j in c.open;
      assert opens == if from in c.open then fewer + {from} else fewer;
    } else {
      assert opens == {};
    }
  }

  /**
   * The pool always terminates: no run is longer than four actions a job, two more an open job, one
   * a worker and four for the closes and the end of the loop; and a run is final exactly when it
   * has that length. So every way of scheduling the goroutines takes the same number of actions.
   */
  lemma EveryRunTerminates(c: Setup, actions: seq<Action>)
    requires c.concurrency >= 1 || c.total == 0
    requires Run(c, Init(c), actions).Some?
    ensures var bound := 4 * c.total + 2 * |set j | 0 <= j < c.total && j in c.open| + c.concurrency + 4;
            |actions| <= bound && (Final(Run(c, Init(c), actions).value) <==> |actions| == bound)
  {
    var s := Run(c, Init(c), actions).value;
    InitInv(c);
    RunInv(c, Init(c), actions);
    RunLength(c, Init(c), actions);
    RangeWork(c, 0);
    QuietCrewWork(c, Init(c).workers);
    if Final(s) {
      FinalIsDone(c, s);
    } else {
      var a := Progress(c, s);
      StepLowersRemaining(c, s, a);
    }
  }

  lemma FinalIsDone(c: Setup, s: State)
    requires Inv(c, s) && Final(s) && (c.concurrency >= 1 || c.total == 0)
    ensures s.jobs == [] && s.results == [] && s.next == c.total
    ensures (forall job: nat :: Held(s.workers, job) == 0) && CountingWorkers(s.workers) == 0 && Remaining(c, s) == 0
  {
    if c.concurrency >= 1 {
      assert s.workers[0] in s.workers;
    }
    HeldOfQuiet(s.workers);
    QuietCrewWork(c, s.workers);
    assert Range(s.next, c.total) == [];
  }

  // ---- what the consumer has in the end ----

  /**
   * When the result loop ends, every job has been counted, and the consumer has received exactly the
   * open jobs, each once.
   */
  lemma FinalResults(c: Setup, actions: seq<Action>)
    requires c.concurrency >= 1 || c.total == 0
    requires Run(c, Init(c), actions).Some? && Final(Run(c, Init(c), actions).value)
    ensures var s := Run(c, Init(c), actions).value;
            && s.scanned == c.total
            && multiset(s.consumed) == multiset(set j | 0 <= j < c.total && j in c.open)
  {
    var s := Run(c, Init(c), actions).value;
    InitInv(c);
    RunInv(c, Init(c), actions);
    FinalIsDone(c, s);
    var open := set j | 0 <= j < c.total && j in c.open;
    forall j: nat
      ensures Occurs(s.consumed, j) + Occurs(s.dropped, j) == if j < c.total then 1 else 0
      ensures Occurs(s.consumed, j) == if j in open then 1 else 0
    {
      assert Places(c, s, j) == if j < c.total then 1 else 0;
      assert j in s.consumed ==> j in c.open;
      assert j in s.dropped ==> j !in c.open;
    }
    CountAll(c, s);
    forall j: nat | j in s.consumed ensures multiset(s.consumed)[j] == 1 {
      assert Occurs(s.consumed, j) > 0;
    }
    BagDistinct(s.consumed);
    DistinctBag(s.consumed);
    forall j: nat ensures j in s.consumed <==> j in open {
      assert j in s.consumed <==> Occurs(s.consumed, j) > 0;
    }
    assert (set j | j in s.consumed) == open;
  }

  /** A consumed and a dropped list that together hold each of the jobs once have |jobs| elements. */
  lemma CountAll(c: Setup, s: State)
    requires forall j: nat :: Occurs(s.consumed, j) + Occurs(s.dropped, j) == if j < c.total then 1 else 0
    ensures |s.consumed| + |s.dropped| == c.total
  {
    var all: seq<nat>, range: seq<nat> := s.consumed + s.dropped, Range(0, c.total);
    forall j: nat ensures Occurs(all, j) == (if j < c.total then 1 else 0) && (j in all <==> Occurs(all, j) > 0) {
      assert Occurs(all, j) == Occurs(s.consumed, j) + Occurs(s.dropped, j);
    }
    forall j | j in all ensures multiset(all)[j] == 1 {
      assert Occurs(all, j) == 1;
    }
    BagDistinct(all);
    DistinctBag(all);
    DistinctBag(range);
    forall j: nat ensures j in all <==> j in range {
      if j < c.total {
        assert range[j] == j;
      }
    }
    assert (set j | j in all) == (set j | j in range);
    assert multiset(all) == multiset(range);
    assert |all| == |multiset(all)| == |multiset(range)| == |range|;
  }
}
