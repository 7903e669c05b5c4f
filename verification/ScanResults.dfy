/**
 * From the pool's results to the host list of scanNetwork (main.go:989-998, main.go:1023-1048 and
 * main.go:1058-1124): jobs in sending order, grouping by address, the merge with discovered and
 * cached hosts, and the final order.
 */
module ScanResults {
  import opened Wrappers
  import opened Sorting
  import opened IPv4
  import P = ScanPool

  datatype Job = Job(ip: Addr, port: int)

  // ---- the jobs ----

  /** All ports of all addresses, in the order of the producer's two loops. */
  function JobsOf(ip: Addr, ports: seq<int>): (jobs: seq<Job>)
    ensures |jobs| == |ports| && forall i | 0 <= i < |ports| :: jobs[i] == Job(ip, ports[i])
  {
    seq(|ports|, i requires 0 <= i < |ports| => Job(ip, ports[i]))
  }

  function AllJobs(ips: seq<Addr>, ports: seq<int>): (jobs: seq<Job>) {
    if ips == [] then [] else AllJobs(ips[..|ips| - 1], ports) + JobsOf(ips[|ips| - 1], ports)
  }

  /** The producer: what it sends, in order. */
  method Produce(ips: seq<Addr>, ports: seq<int>) returns (sent: seq<Job>)
    ensures sent == AllJobs(ips, ports)
  {
    sent := [];
    for i := 0 to |ips|
      invariant sent == AllJobs(ips[..i], ports)
    {
      for j := 0 to |ports|
        invariant sent == AllJobs(ips[..i], ports) + JobsOf(ips[i], ports)[..j]
      {
        sent := sent + [Job(ips[i], ports[j])];
      }
      assert ips[..i + 1][..i] == ips[..i];
    }
    assert ips[..|ips|] == ips;
  }

  /** |ips| * |ports| jobs, and each pair is one of them. */
  lemma {:induction false} AllJobsProduct(ips: seq<Addr>, ports: seq<int>)
    ensures |AllJobs(ips, ports)| == |ips| * |ports|
    ensures forall job :: job in AllJobs(ips, ports) <==> job.ip in ips && job.port in ports
  {
    if ips != [] {
      var front, last := ips[..|ips| - 1], ips[|ips| - 1];
      AllJobsProduct(front, ports);
      assert ips == front + [last];
      assert |ips| * |ports| == |front| * |ports| + |ports|;
      forall job ensures job in JobsOf(last, ports) <==> job.ip == last && job.port in ports {
        if job.ip == last && job.port in ports {
          var i :| 0 <= i < |ports| && ports[i] == job.port;
          assert JobsOf(last, ports)[i] == job;
        }
      }
      hide JobsOf;
    }
  }

  /** Different addresses and different ports make different jobs. */
  lemma {:induction false} AllJobsDistinct(ips: seq<Addr>, ports: seq<int>)
    requires Distinct(ips) && Distinct(ports)
    ensures Distinct(AllJobs(ips, ports))
  {
    if ips != [] {
      var front, last := ips[..|ips| - 1], ips[|ips| - 1];
      AllJobsDistinct(front, ports);
      AllJobsProduct(front, ports);
      var a, b := AllJobs(front, ports), JobsOf(last, ports);
      forall i, j | 0 <= i < j < |a + b| ensures (a + b)[i] != (a + b)[j] {
        if i < |a| <= j {
          assert a[i] in a && a[i].ip in front;
        }
      }
    }
  }

  // ---- grouping by address ----

  /** The ports that arrived for an address, in order of arrival. */
  function PortsOf(arrivals: seq<Job>, ip: Addr): (ports: seq<int>) {
    if arrivals == [] then []
    else
      var front, last := arrivals[..|arrivals| - 1], arrivals[|arrivals| - 1];
      PortsOf(front, ip) + if last.ip == ip then [last.port] else []
  }

  lemma PortsSnoc(arrivals: seq<Job>, i: nat, ip: Addr)
    requires i < |arrivals|
    ensures PortsOf(arrivals[..i + 1], ip)
         == PortsOf(arrivals[..i], ip) + if arrivals[i].ip == ip then [arrivals[i].port] else []
  {
    assert arrivals[..i + 1][..i] == arrivals[..i];
  }

  /** The consumer loop over `results`. */
  method CollectByIP(arrivals: seq<Job>) returns (byIP: map<Addr, seq<int>>)
    ensures forall ip: Addr :: ip in byIP <==> PortsOf(arrivals, ip) != []
    ensures forall ip | ip in byIP :: byIP[ip] == PortsOf(arrivals, ip)
  {
    byIP := map[];
    for i := 0 to |arrivals|
      invariant forall ip: Addr :: ip in byIP <==> PortsOf(arrivals[..i], ip) != []
      invariant forall ip | ip in byIP :: byIP[ip] == PortsOf(arrivals[..i], ip)
    {
      var job := arrivals[i];
      forall ip: Addr
        ensures PortsOf(arrivals[..i + 1], ip) == PortsOf(arrivals[..i], ip) + if job.ip == ip then [job.port] else []
      {
        PortsSnoc(arrivals, i, ip);
      }
      hide PortsOf;
      byIP := byIP[job.ip := (if job.ip in byIP then byIP[job.ip] else []) + [job.port]];
    }
    assert arrivals[..|arrivals|] == arrivals;
  }

  lemma {:induction false} PortsCount(arrivals: seq<Job>, ip: Addr, port: int)
    ensures multiset(PortsOf(arrivals, ip))[port] == multiset(arrivals)[Job(ip, port)]
  {
    if arrivals != [] {
      var front, last := arrivals[..|arrivals| - 1], arrivals[|arrivals| - 1];
      PortsCount(front, ip, port);
      assert arrivals == front + [last];
    }
  }

  predicate PortLeq(a: int, b: int) {
    a <= b
  }

  /** Grouping and sorting by port forgets the order of arrival. */
  lemma ArrivalOrderDoesNotMatter(a: seq<Job>, b: seq<Job>, ip: Addr)
    requires multiset(a) == multiset(b)
    ensures Sort(PortsOf(a, ip), PortLeq) == Sort(PortsOf(b, ip), PortLeq)
    ensures PortsOf(a, ip) == [] <==> PortsOf(b, ip) == []
  {
    var pa, pb := PortsOf(a, ip), PortsOf(b, ip);
    forall port: int ensures multiset(pa)[port] == multiset(pb)[port] {
      PortsCount(a, ip, port);
      PortsCount(b, ip, port);
    }
    assert multiset(pa) == multiset(pb);
    assert |pa| == |multiset(pa)| == |multiset(pb)| == |pb|;
    SortForgetsOrder(pa, pb, PortLeq);
  }

  ghost predicate Numbers(numbers: seq<int>, jobs: seq<Job>) {
    forall i | 0 <= i < |numbers| :: 0 <= numbers[i] < |jobs|
  }

  /** The jobs with the given numbers. */
  function Numbered(jobs: seq<Job>, numbers: seq<int>): (r: seq<Job>)
    requires Numbers(numbers, jobs)
  {
    seq(|numbers|, i requires 0 <= i < |numbers| => jobs[numbers[i]])
  }

  /** Taking one number out takes its job out. */
  lemma NumberedWithout(jobs: seq<Job>, s: seq<int>, k: nat)
    requires Numbers(s, jobs) && k < |s|
    ensures var rest := s[..k] + s[k + 1..];
            && Numbers(rest, jobs)
            && multiset(s) == multiset(rest) + multiset{s[k]}
            && multiset(Numbered(jobs, s)) == multiset(Numbered(jobs, rest)) + multiset{jobs[s[k]]}
  {
    var rest, ns := s[..k] + s[k + 1..], Numbered(jobs, s);
    assert s == s[..k] + [s[k]] + s[k + 1..];
    assert Numbered(jobs, rest) == ns[..k] + ns[k + 1..];
    assert ns == ns[..k] + [ns[k]] + ns[k + 1..];
  }

  lemma {:induction false} NumberedBag(jobs: seq<Job>, a: seq<int>, b: seq<int>)
    requires Numbers(a, jobs) && Numbers(b, jobs) && multiset(a) == multiset(b)
    ensures multiset(Numbered(jobs, a)) == multiset(Numbered(jobs, b))
    decreases |a|
  {
    if a == [] {
      assert |multiset(b)| == 0;
    } else {
      assert a[0] in multiset(b);
      var k :| 0 <= k < |b| && b[k] == a[0];
      NumberedWithout(jobs, a, 0);
      NumberedWithout(jobs, b, k);
      hide Numbered;
      var resta, restb := a[..0] + a[1..], b[..k] + b[k + 1..];
      assert multiset(resta) == multiset(a) - multiset{a[0]};
      assert multiset(restb) == multiset(b) - multiset{a[0]};
      NumberedBag(jobs, resta, restb);
    }
  }

  lemma {:induction false} NumberedCount(jobs: seq<Job>, numbers: seq<int>, k: nat)
    requires Distinct(jobs) && k < |jobs| && Numbers(numbers, jobs)
    ensures multiset(Numbered(jobs, numbers))[jobs[k]] == multiset(numbers)[k]
    decreases |numbers|
  {
    if numbers != [] {
      var front, last := numbers[..|numbers| - 1], numbers[|numbers| - 1];
      NumberedCount(jobs, front, k);
      assert numbers == front + [last];
      assert Numbered(jobs, numbers) == Numbered(jobs, front) + [jobs[last]];
    }
  }

  /** What the consumer has received after a run. */
  ghost predicate Received(ips: seq<Addr>, ports: seq<int>, c: P.Setup, actions: seq<P.Action>, arrivals: seq<Job>) {
    && c.total == |AllJobs(ips, ports)|
    && P.Run(c, P.Init(c), actions).Some?
    && var s := P.Run(c, P.Init(c), actions).value;
       && P.Final(s)
       && Numbers(s.consumed, AllJobs(ips, ports))
       && arrivals == Numbered(AllJobs(ips, ports), s.consumed)
  }

  /**
   * The grouped and sorted results depend only on which jobs are open: not on the interleaving, and
   * not on the number of workers.
   */
  lemma ResultsDoNotDependOnSchedule(ips: seq<Addr>, ports: seq<int>,
                                     c1: P.Setup, run1: seq<P.Action>, arrivals1: seq<Job>,
                                     c2: P.Setup, run2: seq<P.Action>, arrivals2: seq<Job>, ip: Addr)
    requires Received(ips, ports, c1, run1, arrivals1) && Received(ips, ports, c2, run2, arrivals2)
    requires c1.open == c2.open && c1.concurrency >= 1 && c2.concurrency >= 1
    ensures Sort(PortsOf(arrivals1, ip), PortLeq) == Sort(PortsOf(arrivals2, ip), PortLeq)
    ensures PortsOf(arrivals1, ip) == [] <==> PortsOf(arrivals2, ip) == []
  {
    P.FinalResults(c1, run1);
    P.FinalResults(c2, run2);
    hide P.Run, P.Final, Sort;
    NumberedBag(AllJobs(ips, ports), P.Run(c1, P.Init(c1), run1).value.consumed, P.Run(c2, P.Init(c2),
                run2).value.consumed);
    ArrivalOrderDoesNotMatter(arrivals1, arrivals2, ip);
  }

  /** And they are right: a port is listed for an address, once, exactly when that job is open. */
  lemma ResultsAreTheOpenPorts(ips: seq<Addr>, ports: seq<int>, c: P.Setup, run: seq<P.Action>, arrivals: seq<Job>,
                               k: nat)
    requires Received(ips, ports, c, run, arrivals) && c.concurrency >= 1
    requires Distinct(ips) && Distinct(ports) && k < c.total
    ensures var job := AllJobs(ips, ports)[k];
            multiset(PortsOf(arrivals, job.ip))[job.port] == if k in c.open then 1 else 0
  {
    var jobs := AllJobs(ips, ports);
    var consumed := P.Run(c, P.Init(c), run).value.consumed;
    P.FinalResults(c, run);
    AllJobsDistinct(ips, ports);
    PortsCount(arrivals, jobs[k].ip, jobs[k].port);
    hide P.Run, P.Final, AllJobs;
    NumberedCount(jobs, consumed, k);
  }

  // ---- the host list ----

  datatype ArpEntry = ArpEntry(ip: Addr, validMAC: bool)

  predicate InSomeTarget(ip: Addr, nets: seq<Net>)
    requires forall n | n in nets :: n.ones <= 32
  {
    exists i :: 0 <= i < |nets| && InTarget(ip, nets[i])
  }

  /** mergeDiscoveryHosts, for one target. */
  method MergeDiscoveryHosts(before: map<Addr, seq<int>>, hits: set<Addr>, net: Net) returns (byIP: map<Addr, seq<int>>)
    requires net.ones <= 32
    ensures byIP.Keys == before.Keys + set ip | ip in hits && InTarget(ip, net)
    ensures forall ip | ip in byIP :: byIP[ip] == if ip in before then before[ip] else []
  {
    hide InTarget;
    byIP := before;
    var todo := hits;
    while todo != {}
      invariant todo <= hits
      invariant byIP.Keys == before.Keys + set ip | ip in hits - todo && InTarget(ip, net)
      invariant forall ip | ip in byIP :: byIP[ip] == if ip in before then before[ip] else []
    {
      var ip :| ip in todo;
      todo := todo - {ip};
      if InTarget(ip, net) && ip !in byIP {
        byIP := byIP[ip := []];
      }
    }
  }

  /** The addresses arpCacheForTarget returns over all targets. */
  function ArpTargets(entries: seq<ArpEntry>, nets: seq<Net>): (ips: set<Addr>)
    requires forall n | n in nets :: n.ones <= 32
  {
    set e | e in entries && e.validMAC && InSomeTarget(e.ip, nets) :: e.ip
  }

  /**
   * The host table before enrichment. `hits` is None when discovery is off. An address without open
   * ports is listed with none; `arpDead` holds the addresses only the ARP cache knows.
   */
  method MergeHosts(open: map<Addr, seq<int>>, nets: seq<Net>, hits: Option<set<Addr>>, arpCache: bool,
                    entries: seq<ArpEntry>)
    returns (byIP: map<Addr, seq<int>>, arpDead: set<Addr>)
    requires forall n | n in nets :: n.ones <= 32
    ensures var found := if hits.Some? then set ip | ip in hits.value && InSomeTarget(ip, nets) else {};
            var cached := if arpCache then ArpTargets(entries, nets) else {};
            && byIP.Keys == open.Keys + found + cached
            && arpDead == cached - (open.Keys + found)
    ensures forall ip | ip in byIP :: byIP[ip] == if ip in open then open[ip] else []
  {
    byIP := open;
    if hits.Some? {
      for i := 0 to |nets|
        invariant byIP.Keys == open.Keys + set ip | ip in hits.value && InSomeTarget(ip, nets[..i])
        invariant forall ip | ip in byIP :: byIP[ip] == if ip in open then open[ip] else []
      {
        assert nets[i] in nets;
        TargetsGrow(nets, i);
        byIP := MergeDiscoveryHosts(byIP, hits.value, nets[i]);
      }
      assert nets[..|nets|] == nets;
    }
    arpDead := {};
    if arpCache {
      arpDead := ArpTargets(entries, nets) - byIP.Keys;
      byIP := byIP + map ip | ip in arpDead :: [];
    }
  }

  lemma TargetsGrow(nets: seq<Net>, i: nat)
    requires i < |nets| && forall n | n in nets :: n.ones <= 32
    ensures forall n | n in nets[..i + 1] || n in nets[..i] :: n.ones <= 32
    ensures forall ip :: InSomeTarget(ip, nets[..i + 1]) <==> InSomeTarget(ip, nets[..i]) || InTarget(ip, nets[i])
  {
    assert nets[..i + 1] == nets[..i] + [nets[i]];
    forall ip ensures InSomeTarget(ip, nets[..i + 1]) <==> InSomeTarget(ip, nets[..i]) || InTarget(ip, nets[i]) {
      if InTarget(ip, nets[i]) {
        assert InTarget(ip, nets[..i + 1][i]);
      }
      if k :| 0 <= k < i && InTarget(ip, nets[..i][k]) {
        assert InTarget(ip, nets[..i + 1][k]);
      }
    }
  }

  predicate AddrLeq(a: Addr, b: Addr) {
    Value(a) <= Value(b)
  }

  lemma AddrLeqTotal()
    ensures TotalOrder(AddrLeq)
  {
    forall a: Addr, b: Addr ensures AddrLeq(a, b) && AddrLeq(b, a) ==> a == b {
      ValueInjective(a, b);
    }
    hide Value;
  }

  /**
   * The enriched hosts arrive in any order, one for each address of the table; sorted by lessIP they
   * are one list, strictly ascending, that holds exactly those addresses.
   */
  lemma HostOrderIsUnique(keys: set<Addr>, arrival: seq<Addr>, other: seq<Addr>)
    requires Distinct(arrival) && Distinct(other)
    requires (set ip | ip in arrival) == keys == (set ip | ip in other)
    ensures Sort(arrival, AddrLeq) == Sort(other, AddrLeq)
    ensures forall ip :: ip in Sort(arrival, AddrLeq) <==> ip in keys
    ensures forall i, j | 0 <= i < j < |Sort(arrival, AddrLeq)| ::
              Value(Sort(arrival, AddrLeq)[i]) < Value(Sort(arrival, AddrLeq)[j])
  {
    AddrLeqTotal();
    DistinctBag(arrival);
    DistinctBag(other);
    SortForgetsOrder(arrival, other, AddrLeq);
    SortSorts(arrival, AddrLeq);
    var s := Sort(arrival, AddrLeq);
    forall ip ensures ip in s <==> ip in keys {
      assert ip in s <==> ip in multiset(s);
    }
    forall ip | ip in s ensures multiset(s)[ip] == 1 {
    }
    BagDistinct(s);
    forall i, j | 0 <= i < j < |s| ensures Value(s[i]) < Value(s[j]) {
      ValueInjective(s[i], s[j]);
      assert AddrLeq(s[i], s[j]);
    }
  }

  // ---- the whole scan ----

  datatype HostEntry = HostEntry(ip: Addr, ports: seq<int>)

  ghost predicate HasEntry(hosts: seq<HostEntry>, ip: Addr) {
    exists h :: h in hosts && h.ip == ip
  }

  /** The scan found this port of this address open. */
  ghost predicate OpenPort(ips: seq<Addr>, ports: seq<int>, c: P.Setup, ip: Addr, port: int) {
    exists k: nat :: k < |AllJobs(ips, ports)| && k in c.open && AllJobs(ips, ports)[k] == Job(ip, port)
  }

  /** The addresses of the result: open, discovered in a target, or cached in a target. */
  ghost predicate Listed(ips: seq<Addr>, ports: seq<int>, c: P.Setup, nets: seq<Net>, hits: Option<set<Addr>>,
                         arpCache: bool, entries: seq<ArpEntry>, ip: Addr)
    requires forall n | n in nets :: n.ones <= 32
  {
    || (exists port :: OpenPort(ips, ports, c, ip, port))
    || (hits.Some? && ip in hits.value && exists n | n in nets :: InTarget(ip, n))
    || (arpCache && (exists e | e in entries :: e.ip == ip && e.validMAC) && exists n | n in nets :: InTarget(ip, n))
  }

  lemma ArrivedPorts(ips: seq<Addr>, ports: seq<int>, c: P.Setup, run: seq<P.Action>, arrivals: seq<Job>, ip: Addr,
                     port: int)
    requires Received(ips, ports, c, run, arrivals) && c.concurrency >= 1 && Distinct(ips) && Distinct(ports)
    ensures multiset(PortsOf(arrivals, ip))[port] == if OpenPort(ips, ports, c, ip, port) then 1 else 0
    ensures port in PortsOf(arrivals, ip) <==> OpenPort(ips, ports, c, ip, port)
  {
    var jobs := AllJobs(ips, ports);
    AllJobsDistinct(ips, ports);
    hide P.Run, P.Final, AllJobs;
    if k: nat :| k < |jobs| && jobs[k] == Job(ip, port) {
      ResultsAreTheOpenPorts(ips, ports, c, run, arrivals, k);
      assert forall j: nat | j < |jobs| && jobs[j] == Job(ip, port) :: j == k;
    } else {
      PortsCount(arrivals, ip, port);
      assert Job(ip, port) !in arrivals;
    }
    assert port in PortsOf(arrivals, ip) <==> port in multiset(PortsOf(arrivals, ip));
  }

  lemma ArrivedAddresses(ips: seq<Addr>, ports: seq<int>, c: P.Setup, run: seq<P.Action>, arrivals: seq<Job>, ip: Addr)
    requires Received(ips, ports, c, run, arrivals) && c.concurrency >= 1 && Distinct(ips) && Distinct(ports)
    ensures PortsOf(arrivals, ip) != [] <==> exists port :: OpenPort(ips, ports, c, ip, port)
  {
    var arrived := PortsOf(arrivals, ip);
    hide Received, PortsOf, OpenPort;
    if arrived != [] {
      ArrivedPorts(ips, ports, c, run, arrivals, ip, arrived[0]);
    }
    forall port | OpenPort(ips, ports, c, ip, port) ensures port in arrived {
      ArrivedPorts(ips, ports, c, run, arrivals, ip, port);
    }
  }

  lemma SomeTarget(nets: seq<Net>)
    requires forall n | n in nets :: n.ones <= 32
    ensures forall ip :: InSomeTarget(ip, nets) <==> exists n | n in nets :: InTarget(ip, n)
  {
    hide InTarget;
    forall ip, n | n in nets && InTarget(ip, n) ensures InSomeTarget(ip, nets) {
      var i :| 0 <= i < |nets| && nets[i] == n;
    }
  }

  lemma CachedTargets(entries: seq<ArpEntry>, nets: seq<Net>)
    requires forall n | n in nets :: n.ones <= 32
    ensures forall ip :: ip in ArpTargets(entries, nets) <==>
              (exists e | e in entries :: e.ip == ip && e.validMAC) && InSomeTarget(ip, nets)
  {
    hide InSomeTarget;
  }

  /** The enrichment goroutines finish in any order. */
  method Finished(keys: set<Addr>) returns (order: seq<Addr>)
    ensures Distinct(order) && (set ip | ip in order) == keys
  {
    order := [];
    var todo := keys;
    while todo != {}
      invariant todo <= keys && Distinct(order)
      invariant forall ip :: ip in order <==> ip in keys - todo
    {
      var ip :| ip in todo;
      assert ip !in order;
      todo := todo - {ip};
      order := order + [ip];
    }
  }

  /** Sorting the finished hosts by address and their ports by number. */
  method InOrder(byIP: map<Addr, seq<int>>) returns (hosts: seq<HostEntry>)
    ensures forall i, j | 0 <= i < j < |hosts| :: Value(hosts[i].ip) < Value(hosts[j].ip)
    ensures forall ip :: HasEntry(hosts, ip) <==> ip in byIP
    ensures forall h | h in hosts :: h.ip in byIP && h.ports == Sort(byIP[h.ip], PortLeq)
    ensures forall h | h in hosts :: forall i, j | 0 <= i < j < |h.ports| :: h.ports[i] <= h.ports[j]
  {
    hide Sort, Value;
    var order := Finished(byIP.Keys);
    HostOrderIsUnique(byIP.Keys, order, order);
    order := Sort(order, AddrLeq);
    hosts := [];
    for i := 0 to |order|
      invariant |hosts| == i
      invariant forall k | 0 <= k < i :: hosts[k] == HostEntry(order[k], Sort(byIP[order[k]], PortLeq))
    {
      assert order[i] in order;
      hosts := hosts + [HostEntry(order[i], Sort(byIP[order[i]], PortLeq))];
    }
    forall ip ensures HasEntry(hosts, ip) <==> ip in byIP {
      if ip in byIP {
        assert ip in order;
        var k :| 0 <= k < |order| && order[k] == ip;
        assert hosts[k] in hosts && hosts[k].ip == ip;
      }
    }
    forall h | h in hosts ensures forall i, j | 0 <= i < j < |h.ports| :: h.ports[i] <= h.ports[j] {
      SortSorts(byIP[h.ip], PortLeq);
    }
  }

  /** The entry of a listed address holds its open ports in strictly ascending order. */
  ghost predicate HoldsOpenPorts(ips: seq<Addr>, ports: seq<int>, c: P.Setup, h: HostEntry) {
    && (forall i, j | 0 <= i < j < |h.ports| :: h.ports[i] < h.ports[j])
    && (forall port :: port in h.ports <==> OpenPort(ips, ports, c, h.ip, port))
  }

  /** Sorted ports of which none is there twice. */
  lemma PortsAscend(sorted: seq<int>)
    requires Sorted(sorted, PortLeq) && forall port :: multiset(sorted)[port] <= 1
    ensures forall i, j | 0 <= i < j < |sorted| :: sorted[i] < sorted[j]
  {
    forall port | port in sorted ensures multiset(sorted)[port] == 1 {
      assert port in multiset(sorted);
    }
    BagDistinct(sorted);
    assert forall i, j | 0 <= i < j < |sorted| :: PortLeq(sorted[i], sorted[j]) && sorted[i] != sorted[j];
  }

  lemma SortedPortsHold(ips: seq<Addr>, ports: seq<int>, c: P.Setup, run: seq<P.Action>, arrivals: seq<Job>,
                        h: HostEntry)
    requires Received(ips, ports, c, run, arrivals) && c.concurrency >= 1 && Distinct(ips) && Distinct(ports)
    requires h.ports == Sort(PortsOf(arrivals, h.ip), PortLeq)
    ensures HoldsOpenPorts(ips, ports, c, h)
  {
    SortSorts(PortsOf(arrivals, h.ip), PortLeq);
    hide Received, Sort, PortsOf, OpenPort;
    forall port
      ensures multiset(h.ports)[port] <= 1 && (port in h.ports <==> OpenPort(ips, ports, c, h.ip, port))
    {
      ArrivedPorts(ips, ports, c, run, arrivals, h.ip, port);
      assert port in h.ports <==> port in multiset(h.ports);
    }
    PortsAscend(h.ports);
  }

  /**
   * scanNetwork from the last received result on, for any run of the pool: every listed address once,
   * strictly ascending, each with exactly its open ports, ascending.
   */
  method HostList(ghost ips: seq<Addr>, ghost ports: seq<int>, ghost c: P.Setup, ghost run: seq<P.Action>,
                  arrivals: seq<Job>, nets: seq<Net>, hits: Option<set<Addr>>, arpCache: bool, entries: seq<ArpEntry>)
    returns (hosts: seq<HostEntry>)
    requires Received(ips, ports, c, run, arrivals) && c.concurrency >= 1 && Distinct(ips) && Distinct(ports)
    requires forall n | n in nets :: n.ones <= 32
    ensures forall i, j | 0 <= i < j < |hosts| :: Value(hosts[i].ip) < Value(hosts[j].ip)
    ensures forall ip :: HasEntry(hosts, ip) <==> Listed(ips, ports, c, nets, hits, arpCache, entries, ip)
    ensures forall h | h in hosts :: HoldsOpenPorts(ips, ports, c, h)
  {
    hide Received, InSomeTarget, Sort, AllJobs, OpenPort, PortsOf, HoldsOpenPorts, Value, Distinct, HasEntry;
    hide ArpTargets;
    SomeTarget(nets);
    CachedTargets(entries, nets);
    var open := CollectByIP(arrivals);
    var byIP, arpDead := MergeHosts(open, nets, hits, arpCache, entries);
    hosts := InOrder(byIP);
    forall ip ensures ip in open <==> exists port :: OpenPort(ips, ports, c, ip, port) {
      ArrivedAddresses(ips, ports, c, run, arrivals, ip);
    }
    forall ip ensures ip in byIP <==> Listed(ips, ports, c, nets, hits, arpCache, entries, ip) {
    }
    forall h | h in hosts ensures HoldsOpenPorts(ips, ports, c, h) {
      SortedPortsHold(ips, ports, c, run, arrivals, h);
    }
  }
}
