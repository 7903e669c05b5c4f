# A verified model of ipscry

ipscry scans an IPv4 network for open ports, asks the hosts it finds who they are, and then watches
them in a terminal table. This project models the parts of it that are easy to get wrong and proves
what they promise:

- **The scan.** CIDR expansion and 32-bit address arithmetic (`IPv4`, `CidrRange`), the worker pool
  with its two bounded channels as a transition system (`ScanPool`), and the assembly of its results
  into the list of hosts (`ScanResults`).
- **LAN discovery.** The left-biased merge of what four concurrent protocols report (`TextLists`,
  `Discovery`), after what their packet handlers make of the packets they hear (`Protocols`), for mDNS
  and LLMNR from the bytes on (`NameRecords`).
- **The watch table.** The `scanTUI` object with its locked sections (`ScanTUI`, over the state
  functions of `HostTable`), what each section does to one host (`HostCells`, `Rescans`), all of them
  interleaving (`WatchRuns`, `FirstScan`), what each step shows (`TableSteps`), and what follows for
  whole runs: how misses add up to a death (`Escalation`, with concrete runs in `Witnesses`), what the
  statistics mean (`PingStats`, `PingHistory`, `Replies`), which addresses the ticks reach (`Sweeps`).
- **The wire formats.** DNS names, packets and records (`DnsName`, `DnsPacket`, `DnsRecords`), BER and
  SNMP (`Ber`, `Snmp`), Direct-TCP framing and NTLM challenges (`Smb`), NetBIOS node status (`Nbns`).

`Wrappers`, `Octets` and `Sorting` hold what several of these share.

## How it is modelled

Where the program changes state or runs a loop, the model has a method with the same loop, proved to
compute a function; the laws are then proved of that function. Channels, goroutines and locks are
transition systems: every statement on shared state is an action, a run is a list of actions each of
which is enabled in turn, and the theorems hold for every run. A ping tick and a fast probe let go of
the lock while they ping, so each is two actions with the snapshot kept in between.

Parameters stand for what is outside: which ports answer as open, the replies and latencies of pings,
the ARP cache, the results of a scan, `sanitizeOneLine`, UTF-16 decoding, the parsing of address
texts, `strings.ToLower` and `strings.TrimSpace`. Of the last two the list laws use that trimming twice
is trimming once, and the discovery theorem also that the four protocol names are not changed by
trimming and stay different when lower-cased; the DNS codec assumes nothing of them.

## Where the code differs from what it seems to promise

Each of these is a theorem, and beside the failing input stands the exact condition under which the
promise does hold.

- `decodeDNSName` keeps a map of visited offsets that can never stop it. A name whose pointers run in
  a circle recurses forever; every other name ends within as many calls as the message has bytes
  (`DnsName.TerminatesIffAcyclic`, `DnsName.SelfPointerDiverges`). Length bytes from 0x40 to 0xBF,
  which RFC 1035 section 4.1.4 reserves, are read as labels of that length.
- `encodeDNSName` cuts labels at 63 bytes and ends a name at an empty label, so the round trip holds
  exactly for names of 1- to 63-byte labels (`DnsName.EncodeDecodeRoundTrip`).
- For /31 and /32 `expandCIDR` lists addresses that `cidrUsableHostCount` does not count and
  `ipInTarget` rejects (`CidrRange.ExpansionIsTheTargets`, `CidrRange.ExpansionIsCounted`).
- "Ten missed pings mean dead" fails in exactly those runs in which a step replaces a row that has ten
  misses by a host without a latency (`Escalation.TenMeansDeadSurvives`,
  `Escalation.TenMeansDeadOverRuns`). Such a host stays undead however long it is silent
  (`Escalation.StrandedForever`), and a run from an empty table leads there
  (`Witnesses.StrandingIsReachable`).
- A tick counts a first miss exactly for a row with an open port, a latency above 0 ms or one of the
  statuses live, ARP and dead (`Escalation.TickCountsOnlyLive`). A host with none of these never dies
  (`Escalation.NeverLiveNeverDies`), even if it answered within a millisecond or was heard of by
  discovery, and a scan can find one (`Witnesses.NeverLiveIsReachable`).
- A dead row shows no latency after a step, unless the step is a report of a running scan that has a
  latency for that host: these are exactly the steps that break it (`Escalation.DeadRowsStayMute`), and
  a run from an empty table contains one (`Witnesses.LatencyOfDeadRowIsReachable`).
- The statistics record a reply again when the scan that got it ends and when the discovery it set off
  has finished. Minimum and maximum are those of the measured replies all the same
  (`Replies.StatisticsShowReplies`). What was recorded is what was measured exactly when, since the host
  was last dropped, the first scan got no reply from it, no rescan returned it with a latency it had
  reported, and no discovery ended that was started with a recorded latency
  (`Replies.RecordedAreMeasured`). The six samples, and so the average, are those of the last six
  measurements exactly when none of the last six recordings repeats one (`Replies.SamplesAreMeasured`);
  `Replies.ScanReplyCountsTwice`, `Replies.DiscoveryReplyCountsTwice` and `Replies.TickReplyCountsTwice`
  are cases in which they are not.

## Model

| member | source | states |
|---|---|---|
| IPv4.ContainsIsInterval | main.go:915-928 | masking and comparing bytes is membership in one interval of 32-bit integers; the broadcast address is its last element; a target is anything strictly inside |
| CidrRange.IncIP | main.go:942-949 | incrementing in place gives the successor with carry |
| CidrRange.IncrementedAddsOne | main.go:942-949 | the bytes after an increment stand for one more, and for zero after all-ones, at any length |
| CidrRange.IncrementedAddr | main.go:942-949 | for four bytes that is +1 modulo 2^32 |
| CidrRange.ExpandCIDR | main.go:848-872 | which texts are refused, and for the others the whole block, without its two ends if it has more than two addresses |
| CidrRange.Enumerate | main.go:863-868 | the increment loop stops, also for a range that ends at 255.255.255.255, and lists the block in order |
| CidrRange.ExpansionAscends | main.go:848-872 | the list ascends without repetition and is never empty |
| CidrRange.ExpansionIsTheTargets | main.go:848-929 | an address is listed if and only if the membership test accepts it, exactly for prefixes up to /30; at /31 and /32 the test rejects everything |
| CidrRange.ExpansionIsCounted | main.go:786-795 | the list is as long as the host count says, exactly for prefixes up to /30; at /31 and /32 the count is 0 |
| CidrRange.LessAddr | main.go:2749-2754 | the byte-wise comparison is the order of the 32-bit values |
| CidrRange.LessIP | main.go:2743-2755 | texts that both parse as IPv4 are ordered by value, any others as strings |
| ScanPool.EveryJobInOnePlace | main.go:969-998 | in every interleaving each job is in exactly one place, and nothing is sent on or closed after a close |
| ScanPool.Progress | main.go:969-998 | every reachable state that is not final has an enabled action |
| ScanPool.NeverDeadlocks | main.go:969-1048 | the same over every run from the start, both channels being bounded |
| ScanPool.NoWorkersDeadlock | main.go:488-490 | with concurrency 0 and any job nothing can happen at all, which is why the bound is checked |
| ScanPool.StepLowersRemaining | main.go:969-998 | every action takes exactly one off a measure over unsent jobs, channels and workers |
| ScanPool.EveryRunTerminates | main.go:969-1048 | no run is longer than a bound computed from jobs, open jobs and workers, and a run is final exactly when it has that length |
| ScanPool.FinalResults | main.go:969-1048 | at the end every job was counted and the consumer has received exactly the open jobs, each once |
| ScanResults.Produce | main.go:989-995 | the producer's two loops send every port of every address, in order |
| ScanResults.AllJobsProduct | main.go:989-995 | that is one job for every pair, as many as the product |
| ScanResults.AllJobsDistinct | main.go:989-995 | distinct addresses and ports give distinct jobs |
| ScanResults.CollectByIP | main.go:1039-1048 | the consumer groups the ports by address, in order of arrival |
| ScanResults.ArrivalOrderDoesNotMatter | main.go:1106-1109 | grouping and sorting by port forgets the order of arrival |
| ScanResults.ResultsDoNotDependOnSchedule | main.go:969-1048 | two runs, even with different numbers of workers, give every address the same ports |
| ScanResults.ResultsAreTheOpenPorts | main.go:969-1048 | a port is listed for an address, once, exactly when that job is open |
| ScanResults.MergeDiscoveryHosts | discovery.go:216-225 | adds the in-target addresses among the hits and keeps the ports of all others |
| ScanResults.MergeHosts | main.go:1058-1096 | the addresses of the table are those with open ports, those discovered in a target, and with ARP those the cache knows; which ones count as known to ARP alone |
| ScanResults.HostOrderIsUnique | main.go:1098-1128 | however the enrichment goroutines finish, the sorted list is the same, strictly ascending, one entry for each address |
| ScanResults.HostList | main.go:1039-1128 | for any run of the pool the final list holds each open, discovered or cached address once, strictly ascending, with exactly its open ports, as strictly ascending numbers |
| TextLists.TextOrder | discovery.go:212-213 | the byte order of strings that the lists are sorted by is total |
| TextLists.TextLeqByBytes | discovery.go:212-213 | it is decided by the first byte in which two texts differ, and a prefix comes first |
| TextLists.AppendUniqueStrings | discovery.go:195-214 | the loops gather the trimmed, non-blank, case-insensitively new values and sort |
| TextLists.AppendSource | discovery.go:188-193 | adds its sources one call at a time |
| TextLists.AppendUniqueEntries | discovery.go:195-214 | the result is sorted and clean; a key keeps the spelling it had, and a new key gets the first spelling among the values |
| TextLists.FirstValueIs | discovery.go:195-214 | the spelling a new key gets is the trimmed text of the first value that has it |
| TextLists.AppendNormal | discovery.go:195-214 | on clean sorted lists it is a left-biased union |
| TextLists.AppendAssociative | discovery.go:195-214 | it is associative |
| TextLists.AppendIdempotent | discovery.go:195-214 | appending a list to itself, or nothing, changes nothing |
| TextLists.AppendCommutes | discovery.go:195-214 | the order of two lists matters if and only if they spell a shared key differently |
| TextLists.AppendEachIsAppendUnique | discovery.go:188-193 | adding sources one by one is adding them together |
| Discovery.MergeDiscoveryHit | discovery.go:158-186 | field by field, the merge of two hits |
| Discovery.MergeKeepsText | discovery.go:158-186 | each of the seven texts keeps its first value: the later hit fills it only if it is empty |
| Discovery.MergedKeepsFirst | discovery.go:158-186 | of any number of hits the first that has a text decides the field |
| Discovery.RunKeepsFirst | discovery.go:104-147 | so a text of a run's hit is that of the first protocol to finish that reported one |
| Discovery.MergeLocked | discovery.go:106-117 | iterating over a partial result in any order merges each in-target address once and leaves the others alone |
| Discovery.MergeKeepsNormal | discovery.go:158-186 | merging keeps the lists clean and sorted |
| Discovery.MergeAssociative | discovery.go:158-186 | the merge is associative |
| Discovery.MergeIdempotent | discovery.go:158-186 | the merge is idempotent and the empty hit is neutral on both sides |
| Discovery.MergeCommutes | discovery.go:158-186 | two hits may be merged in either order if and only if no field or key has two different texts |
| Discovery.MergedInAnyOrder | discovery.go:158-186 | pairwise compatible hits give one result in every order |
| Discovery.MergeAllPointwise | discovery.go:84-147 | a run's hits are, address by address and within the target, the merge of what each protocol reported |
| Discovery.ProtocolsCompatible | discovery.go:158-186 | hits that fill only the fields of different protocols, apart from their sources, are compatible |
| Discovery.AsciiIsSane | discovery.go:188-214 | what is assumed of lower-casing, trimming and the protocol names holds for ASCII text |
| Discovery.HonestReportsInAnyOrder | discovery.go:104-147 | reports that fill their own fields with clean lists, at most one a protocol, merge to the same hits in any order |
| Protocols.Listener.OnSSDP | ssdp.go:79-100 | the hits after an SSDP reply |
| Protocols.Listener.OnMDNS | mdns.go:21-66 | the hits after the bytes of an mDNS packet: parsed, gathered address by address, then merged, in any order of the map |
| Protocols.Listener.OnLLMNR | llmnr.go:21-55 | the hits after the bytes of an LLMNR packet: the last name of each address counts |
| Protocols.Listener.OnWSD | wsd.go:32-47 | the hits after a WS-Discovery reply |
| NameRecords.MDNSReturnsIffAcyclic | mdns.go:21-57 | reading an mDNS packet ends if and only if no name in it runs in a circle, neither those the walk decodes nor those in PTR and SRV records |
| NameRecords.PrintedMDNSRead | mdns.go:21-57 | the bytes of a packet that announces addresses and names, with any compression, give those addresses and names in order |
| NameRecords.LLMNRReadsAddresses | llmnr.go:21-43 | of the same packet an LLMNR listener reads the addresses only |
| Protocols.LocalAddresses | mdns.go:26-57 | the addresses in a packet give its hits; without a name ending in ".local" a hit has none |
| Protocols.FirstNameWins | mdns.go:38-40 | of several such names the first is kept |
| Protocols.LocalServices | mdns.go:41-55 | a packet gives an address the service names in its own records, and those of pointers behind its first record, and no others |
| Protocols.ServiceNames | mdns.go:41-50 | a service name is one that holds "._tcp." or "._udp." |
| Protocols.LastNameCounts | llmnr.go:38-42 | of several names for an address in one LLMNR packet the last counts |
| Protocols.HearKeepsText | ssdp.go:88-96 | a packet of any protocol fills a text of a hit only if it is empty, with the text it has |
| Protocols.FirstPacketDecides | discovery.go:119-147 | over any packets: server, type, location and names are those of the first packet that has one |
| Protocols.FirstMDNSName | mdns.go:21-66 | an mDNS name is that of the first record that gives one, in the first packet that does |
| Protocols.FirstLLMNRPacket | llmnr.go:21-55 | an LLMNR name is the last one in the first packet that gives one |
| Protocols.SSDPAdds | ssdp.go:79-100 | an SSDP reply adds its source and leaves the lists |
| Protocols.WSDAdds | wsd.go:32-47 | a WS-Discovery reply adds its source, types, addresses and scopes; a key that is there keeps its spelling |
| Protocols.PrintedAddressesAreHits | mdns.go:21-66 | from the bytes: the first packet heard gives hits for exactly the addresses it announces |
| Protocols.HearKeeps | mdns.go:21-66 | a packet of any of the four protocols fills that protocol's fields only and keeps the lists clean and sorted |
| Protocols.ListenIsHonest | discovery.go:119-147 | so does any sequence of packets, from no hits on |
| Protocols.SourceNamed | discovery.go:119-147 | and each hit names that protocol, and no other, as its source |
| Protocols.CompletionOrderDoesNotMatter | discovery.go:104-147 | whatever packets the protocols hear, the hits of a discovery run do not depend on which protocol finishes first |
| PingStats.Avg | tui.go:51-60 | the mean of the kept samples, or -1 |
| PingStats.SumAdds | tui.go:51-60 | the sum behind the mean is additive, and of one sample that sample |
| PingStats.ReplaySummarises | tui.go:765-789 | after any recorded history: the last six replies, the least and greatest of all (-1 if none), the misses since the last reply |
| PingStats.AverageInRange | tui.go:51-60 | of any statistics that summarise a history with a reply, as all in the table do, the average lies between minimum and maximum |
| ScanTUI.SplitIPChunks | main.go:1293-1306 | the slicing loop gives the chunks |
| ScanTUI.ScanTUI.IndexOf | tui.go:798-805 | the first row with the address, or -1 |
| ScanTUI.ScanTUI.RecordPingLocked | tui.go:765-781 | the new statistics of one host after a reply; negative latencies are ignored |
| ScanTUI.ScanTUI.RecordMissLocked | tui.go:785-789 | one more miss, and the count returned |
| ScanTUI.ScanTUI.MoveHostToBottomLocked | tui.go:807-815 | the rows behind move up and the row takes the last place |
| ScanTUI.ScanTUI.UpsertPlaceholderLocked | tui.go:277-288 | a new row, or a better latency for the old one |
| ScanTUI.ScanTUI.PortOpen | tui.go:194-205 | the modelled state after an open port was reported |
| ScanTUI.ScanTUI.EnrichStart | tui.go:207-221 | the modelled state after the list of hosts was announced |
| ScanTUI.ScanTUI.HostReady | tui.go:223-242 | the modelled state after a host was reported |
| ScanTUI.ScanTUI.HTTPRefresh | tui.go:248-275 | the modelled state after a late HTTP report |
| ScanTUI.ScanTUI.Finish | tui.go:295-326 | the modelled state when the watch phase starts |
| ScanTUI.ScanTUI.TickSnapshot | tui.go:458-482 | the batch a tick pings and the cursor after it |
| ScanTUI.ScanTUI.TickApply | tui.go:499-553 | the modelled state after the replies of a tick |
| ScanTUI.ScanTUI.FastSnapshot | tui.go:391-417 | each suspect once, in any order; none during a rescan or with pinging off |
| ScanTUI.ScanTUI.FastApply | tui.go:418-451 | the modelled state after the replies of a fast probe |
| ScanTUI.ScanTUI.AddDiscoverPlaceholder | tui.go:597-615 | the modelled state after a host was noticed |
| ScanTUI.ScanTUI.UpsertHost | tui.go:617-637 | the modelled state after a discovered host was enriched |
| ScanTUI.ScanTUI.RemoveHost | tui.go:898-911 | the modelled state after discovery gave up on a host |
| ScanTUI.ScanTUI.TriggerRescan | tui.go:1177-1204 | the modelled state after a rescan was asked for, and whether one was started |
| ScanTUI.ScanTUI.ApplyRescanResults | tui.go:1206-1225 | the modelled state after a rescan |
| ScanTUI.ScanTUI.ReconcileRescanHostsLocked | tui.go:1239-1277 | the map, the seen set and the three appends give the reconciled rows |
| HostCells.MovedToBottom | tui.go:807-815 | moving a row is a permutation that keeps the order of the others and puts the row last |
| HostCells.TickActs | tui.go:499-553 | a tick changes the row and statistics of each host by themselves, and a miss is counted only at zero misses |
| HostCells.FastActs | tui.go:418-451 | so does a fast probe, for the hosts in its snapshot only |
| HostCells.UpsertActs | tui.go:617-637 | replacing or appending a row changes one host |
| HostCells.DiscoverActs | tui.go:597-615 | a placeholder is added only for an unknown host |
| HostCells.RemoveActs | tui.go:898-911 | a row and its statistics go together, and only if nothing is known of the host |
| HostCells.PlacesAct | tui.go:207-221 | announcing hosts, even twice, adds or improves one row each |
| HostCells.HTTPActs | tui.go:248-275 | an HTTP report changes the ports of one host |
| Rescans.ReconcileIsStablePartition | tui.go:1239-1277 | rows found again in old order with new contents, then rows not found in old order and dead, then new hosts in scan order; for every pair of addresses the order of their rows is exactly that |
| Rescans.ReconcileDistinct | tui.go:1239-1277 | rows with distinct addresses stay so |
| Rescans.RescanActs | tui.go:1206-1225 | what a rescan does to the row and statistics of each host |
| Rescans.FinishActs | tui.go:295-320 | what finishing the first scan does to the row and statistics of each host |
| Rescans.FinishAscends | tui.go:295-326 | when the watch begins the rows ascend strictly by address |
| TableSteps.StepShows | tui.go:178-637 | the row of every host after any step, field by field: what the step has news of changes, and nothing else |
| TableSteps.StepKeepsPlaces | tui.go:178-637 | no step but a fast probe, a removal and the end of a rescan moves a row; new rows come last |
| TableSteps.FastProbeOrder | tui.go:437-451 | the hosts a fast probe kills go to the bottom in the order they were probed, the others keep theirs |
| TableSteps.RemovalKeepsOrder | tui.go:898-911 | a removal takes out one row and leaves the others in order |
| TableSteps.StepHeader | tui.go:1177-1225 | phase, rescan and ping switches, and the latencies a scan remembers, after any step |
| WatchRuns.StepActs | tui.go:391-637 | every step acts on each address by itself |
| WatchRuns.StepKeepsInv | tui.go:391-637 | every step keeps the invariant, among it: a host in the snapshot of a fast probe has at most nine misses |
| WatchRuns.RunsKeepInv | tui.go:391-637 | so does every run; the cursor always indexes a chunk |
| FirstScan.FinishEstablishesInv | tui.go:295-326 | the invariant holds when the watch loops start, whatever the first scan reported |
| FirstScan.WatchIsSafe | tui.go:178-637 | from an empty table, over every run: distinct rows, statistics only for rows, at most ten misses, at most one rescan and only in its phases, no latency in dead rows of the watch phase |
| FirstScan.ScanShowsBestLatency | tui.go:194-221 | until a host is ready its row shows the least of the latencies reported for its ports |
| Escalation.TenMeansDeadSurvives | tui.go:437-441 | "ten misses mean dead" survives a step if and only if the step does not replace a row that has ten misses by a host without a latency |
| Escalation.TenMeansDeadOverRuns | tui.go:391-637 | over a run it holds at every point if and only if no step does that; so it holds in all runs of ticks, fast probes, removals and HTTP reports |
| Escalation.SilentSuspect | tui.go:437-541 | while a suspect is silent each fast probe that pinged it adds one miss, nothing else does, and it is dead exactly at ten, in every interleaving |
| Escalation.EveryProbeCounts | tui.go:391-456 | in every interleaving every fast probe that comes back did ping the silent suspect, until it is dead, except one that was under way before |
| Escalation.SilentHostDies | tui.go:391-553 | a host with an open port, a latency above 0 ms or the status live or ARP that falls silent is dead after one missed tick and nine fast probes, no sooner and no later, with any other ticks, probes, discoveries, removals, reports and switches in between, until a rescan ends |
| Escalation.AnsweredHostDies | tui.go:391-553 | so is a host that answered a tick or a fast probe in more than 0 ms and then fell silent |
| Escalation.PausedSuspectWaits | tui.go:399-403 | with pinging switched off and no probe under way, a silent suspect comes no nearer to death |
| Escalation.TickCountsOnlyLive | tui.go:537-542 | a tick without a reply counts a first miss if and only if the row has an open port, a latency above 0 ms, or the status dead, live or ARP |
| Escalation.StrandedForever | tui.go:437-541 | a host with ten misses that is not dead never dies of silence |
| Escalation.RescanStrands | tui.go:1239-1277 | a rescan that finds a host with ten misses and gets no latency strands it |
| Escalation.NeverLiveNeverDies | main.go:2597-2606 | a row without ports and positive latency, and with no status or "discovered", is never counted as missing |
| Escalation.ReplyRevives | tui.go:426-436 | one reply undoes any number of misses, keeps the ports and revives a dead row |
| Escalation.RowLostOnlyWhenBare | tui.go:898-911 | a step loses a row if and only if it removes a host without MAC and ports |
| Escalation.NoRowLost | tui.go:1206-1277 | no other row is lost over any number of rescans, ticks and probes |
| Escalation.DeadRowsStayMute | tui.go:194-288 | rows that are dead show no latency after a step if and only if the step is not a report of a running scan with a latency for one of them |
| Escalation.RescanShowsLatencyOfDeadRow | tui.go:194-205 | from any state of the watch phase with a dead row, starting a rescan and finding a port of it open shows that latency in the dead row |
| Witnesses.DeathIsReachable | tui.go:391-553 | a run from an empty table in which a scanned host misses a tick and nine probes and is dead |
| Witnesses.StrandingIsReachable | tui.go:1206-1277 | a run from an empty table that ends with a host that has ten misses and is not dead |
| Witnesses.LatencyOfDeadRowIsReachable | tui.go:194-205 | a run from an empty table that ends with a dead row that shows a latency |
| Witnesses.NeverLiveIsReachable | main.go:2597-2606 | a scan of one host that is never live, and so is never counted as missing |
| PingHistory.StepSummarised | tui.go:765-789 | each step adds to the statistics exactly the reply or miss it records |
| PingHistory.StatisticsAreHistory | tui.go:765-789 | over every run the statistics summarise what was recorded of the host |
| PingHistory.AllStatisticsAreHistory | tui.go:223-637 | the same from an empty table, through the first scan |
| Replies.StepLinked | tui.go:391-637 | a step adds what it records; a reply that it marks as a repetition is the one the finished scan had reported, or the discovery was started with |
| Replies.RunLinked | tui.go:391-637 | over every run each recording marked as a repetition has an earlier one of the same reply, and the recordings are the recorded history |
| Replies.StatisticsShowReplies | tui.go:223-637 | from an empty table: minimum and maximum are those of the replies, each taken once; samples and misses are those of the recordings |
| Replies.RecordedAreMeasured | tui.go:223-637 | the recordings are the measured replies and the misses if and only if nothing was recorded again since the host was last dropped, by the first scan or by a step that repeats |
| Replies.RescanRecordsAgain | main.go:1113-1124 | as long as a host is kept, the steps that repeat by a rescan are exactly those that return it with a latency |
| Replies.SamplesAreMeasured | tui.go:765-781 | the last six recordings of replies are the last six measurements if and only if none of them repeats one; then the samples are the last six measured latencies |
| Replies.ScanReplyCountsTwice | tui.go:223-320 | one reply to the first scan stands twice among the samples |
| Replies.DiscoveryReplyCountsTwice | tui.go:597-637 | the reply by which a host was noticed stands twice among the samples |
| Replies.TickReplyCountsTwice | tui.go:499-637 | so does a reply to a tick whose host entered the table meanwhile, once its discovery has finished |
| Sweeps.ChunksPartition | main.go:1293-1306 | the chunks put together are the list; all are full but the last, which is neither too long nor empty |
| Sweeps.SweepBegins | tui.go:295-326 | the watch begins with chunks of 256 addresses at the first one; up to 256 addresses are one batch |
| Sweeps.BatchesGoRound | tui.go:472-479 | on a large network the ticks take the chunks round and round, with anything in between |
| Sweeps.SweepIsRotation | tui.go:296-310 | any chunk-count many ticks that are not skipped ping every position exactly once, in a rotation of the list |
| Sweeps.SmallNetBatches | tui.go:472-474 | on a small network every such tick pings everything |
| Sweeps.HTTPOnlyFillsGaps | tui.go:244-275 | a late report gives each port without a response the first response it brings, and touches nothing else |
| Sweeps.ResponseIsFirst | tui.go:244-275 | that response is the first probed port of the number that has one |
| DnsName.DecodeDNSName | dnswire.go:48-85 | the loop with its recursive call, and the map that never fires, computes the decoded name |
| DnsName.NameIsItsLabels | dnswire.go:48-85 | joining names of names is joining all labels in order |
| DnsName.TerminatesIffAcyclic | dnswire.go:48-85 | decoding ends if and only if no offset recurs in the chain of pointers, and then within as many calls as there are bytes |
| DnsName.BackwardPointersHalt | dnswire.go:66-76 | pointers below the start of their own name always end |
| DnsName.SelfPointerDiverges | dnswire.go:66-76 | a pointer to itself never ends |
| DnsName.EncodeDNSName | dnswire.go:32-46 | the loop writes the cut, length-prefixed labels |
| DnsName.PlainNameDecodes | dnswire.go:48-85 | printed labels decode to themselves anywhere in any message |
| DnsName.PointerNameDecodes | dnswire.go:66-76 | labels and a pointer decode to the labels and those pointed to, and the offset returned is just after the pointer |
| DnsName.CompressionPreservesMeaning | dnswire.go:48-85 | replacing the tail of a name by a pointer to any encoding of it changes nothing (RFC 1035 section 4.1.4) |
| DnsName.LongLabelDecodes | dnswire.go:77-84 | length bytes from 64 to 191 are read as labels too |
| DnsName.DottedNameWritten | dnswire.go:32-46 | a dotted name, with a final dot or without, is written label by label, each cut after 63 bytes |
| DnsName.EncodedLabelsDecode | dnswire.go:32-85 | an encoded list decodes up to its first empty label |
| DnsName.EncodeDecodeRoundTrip | dnswire.go:32-85 | the round trip at any position of any message holds if and only if the text is empty or its labels have 1 to 63 bytes |
| DnsPacket.DecodeDivergesIffCyclic | dnswire.go:48-85 | as a total function the decoder diverges exactly on circles |
| DnsPacket.ParseDNSPacket | dnswire.go:102-147 | the two loops compute the parsed packet, whenever the walk returns |
| DnsPacket.WalkReturnsIffAcyclic | dnswire.go:102-147 | the walk returns if and only if none of the names it decodes, which stand where the names before them end, runs in a circle; it gives no packet if and only if the header or a question does not fit |
| DnsPacket.WalkReturnsWhenAcyclic | dnswire.go:102-147 | the walk returns on every message in which no pointer leads into a circle |
| DnsPacket.WalkReturnsWhenBackward | dnswire.go:102-147 | and on every message whose pointers all aim backward |
| DnsPacket.ParsedRecordsLaidOut | dnswire.go:102-147 | on any bytes: each record's data is the slice at its offset, the slices are in bounds, disjoint and ascending, and there are no more records than the counts and the length allow |
| DnsPacket.WrittenNameDecodes | dnswire.go:48-85 | a written name, compressed or not, decodes to its meaning |
| DnsPacket.PrintedPacketParses | dnswire.go:102-147 | a packet printed from header, questions and records, with any compression, parses back to the same records, also if the header promises more of them (RFC 1035 section 4.1) |
| DnsPacket.BuildDNSQuery | dnswire.go:87-100 | the bytes of a query |
| DnsPacket.QueryParses | dnswire.go:87-100 | a query parses back to its identifier and no records |
| DnsPacket.QueryAsks | dnswire.go:87-100 | the query for a dotted name is a packet with exactly that question, of the type asked for and class 1 |
| DnsPacket.QueryEnds | dnswire.go:97-98 | every query ends in its type and class 1 |
| DnsRecords.DNSRecordName | dnswire.go:163-176 | the name read in the message at the data of a PTR record, or six bytes behind it for SRV |
| DnsRecords.DotDropped | dnswire.go:163-176 | one dot at the end of a name is dropped |
| DnsRecords.WrittenRecordNameRead | dnswire.go:163-176 | the name in a PTR record, and behind the fixed fields of an SRV record, is read as written, through pointers too |
| DnsRecords.DNSRecordTXT | dnswire.go:178-194 | the loop joins the strings of a TXT record |
| DnsRecords.PrintedTextRead | dnswire.go:178-194 | printed strings are read back, whatever cut-short string follows |
| DnsRecords.RecordTextRead | dnswire.go:178-194 | the text of a TXT record is its strings with a space between any two; other types have none |
| DnsRecords.TextIsItsParts | dnswire.go:178-194 | any data is the strings read from it and at most one more that is cut short |
| Ber.Asn1Len | main.go:2003-2013 | the loop writes the base-256 digits |
| Ber.Asn1TLV | main.go:1998-2001 | tag, length, content |
| Ber.ReadTLV | main.go:1974-1996 | the loop reads the first triple, or fails |
| Ber.ReadUndoesTLV | main.go:1974-2001 | reading undoes writing if and only if the content is below 2^32 bytes |
| Ber.ReadIsThere | main.go:1974-1996 | on any bytes, what was read stands there: tag, length field, content, rest |
| Ber.LengthIsMinimal | main.go:2003-2013 | no length field that is read as n is shorter than the one written for n (X.690 section 8.1.3) |
| Ber.Asn1Int | main.go:2015-2027 | the loop writes the digits and a zero in front of a high bit; a negative number makes it panic |
| Ber.IntRoundTrip | main.go:2015-2027 | the content is a two's-complement encoding of the number (X.690 section 8.3) |
| Ber.IntIsMinimal | main.go:2015-2027 | it is the only shortest one |
| Snmp.ParseSNMPVarbinds | main.go:1917-1970 | through the layers and round the loop, on any bytes; it always ends |
| Snmp.HexInjective | main.go:1967-1967 | the hexadecimal keys tell identifiers apart |
| Snmp.HexReads | main.go:1967-1967 | each byte is two hexadecimal digits, the high one first |
| Snmp.PrintedListFound | main.go:1917-1948 | past the six layers the parser finds the printed var-bind list |
| Snmp.PrintedResponseParses | main.go:1917-1970 | a printed response gives exactly its OCTET STRING bindings, the last one of each identifier, sanitized (RFC 3416 section 3) |
| Snmp.BuildSNMPGet | main.go:1893-1913 | the bytes of a request, or the panic on a negative request number |
| Snmp.RequestIsGet | main.go:1893-1913 | read field by field, a request is an SNMPv2c GetRequest with that community, number and identifiers, each bound to null (RFC 3416 section 3) |
| Snmp.RequestParsesToNothing | main.go:1893-1970 | a request parsed as a response gives nothing |
| Smb.FrameDirectTCP | main.go:1758-1765 | the bytes of the buffer: a zero, the length in 24 bits, the payload |
| Smb.FrameLength | main.go:1758-1765 | its first four bytes are the length in network order, cut to 24 bits |
| Smb.ReadSMB2 | main.go:1741-1755 | one message off a stream, or the error |
| Smb.UnframeUndoesFrame | main.go:1741-1765 | framing and reading gives the payload back, whole and alone, if and only if it has 1 to 65535 bytes, whatever the first byte |
| Smb.Utf16LE | main.go:1848-1857 | the code units of the even part |
| Smb.UnitsRead | main.go:1848-1857 | code units written low byte first are read back, also with an odd byte behind them |
| Smb.ParseNTLMChallenge | main.go:1806-1845 | the first signature, the bounds checks and the pair loop, on any bytes; it always ends |
| Smb.PrintedPairsRead | main.go:1823-1841 | printed attribute pairs give the decoded code units of the last pair of each name before the terminator or a pair that is cut short |
| Smb.FirstSignature | main.go:1806-1814 | no match straddles the end of a prefix, so only matches inside it matter |
| Smb.TargetInfoFound | main.go:1806-1822 | behind a prefix without a signature, target info is found if and only if the message is a CHALLENGE that holds it |
| Smb.NoSignature | main.go:1806-1814 | without a signature there is no name |
| Smb.ChallengeNameFound | main.go:1806-1845 | after any prefix without a signature: the decoded code units of the DNS computer name, or those of the NetBIOS one where that is empty |
| Smb.PrintedChallenge | main.go:1806-1822 | the printed challenge has the layout the theorem asks for |
| Nbns.ParseNBNSName | main.go:1660-1693 | the entry loop with its early return and its fallback |
| Nbns.PaddingTrimmed | main.go:1660-1693 | blanks and zero bytes behind a name are dropped, and nothing else |
| Nbns.PrintedNodeStatusRead | main.go:1660-1693 | from a printed response: the text of the first usable unique name of the workstation service, or else of any service; nothing without an answer |

## Left out

- CidrRange.ExpandCIDR: parsing the CIDR text is a parameter with three outcomes (error, IPv6, an IPv4 network with a masked address).
- Protocols.CompletionOrderDoesNotMatter: handlers that outlive their call and the fetching of UPnP descriptions afterwards are not modelled.
- Protocols.Listener.OnSSDP: the reply is taken after its header block has been parsed.
- Protocols.Listener.OnWSD: the reply is taken after its ProbeMatch has been parsed.
- Protocols.Listener.OnMDNS: packets on which the walk never returns are excluded; the program does not survive them.
- Protocols.Listener.OnLLMNR: the same, and AAAA records are left out, because the target test drops IPv6 addresses.
- Snmp.PrintedResponseParses: messages of 2^32 bytes or more, which no datagram can carry, are left to Ber.ReadUndoesTLV.
- Snmp.RequestIsGet: the same for requests.
- WatchRuns.StepKeepsInv: the limit on discoveries that run at the same time is not modelled; that scans report each host once and none as dead is what ScanResults.HostOrderIsUnique and the status function of discovery.go give.
- HostTable: vendor, host name, guess and ARP columns are one opaque text; colours, scrolling and the export of the table are left out.
- ScanTUI.ScanTUI.EnrichStart: the number of hosts shown and the stored enrichment options are not modelled.
- ScanTUI.ScanTUI.HTTPRefresh: the change timestamp is not modelled.
- ScanTUI.ScanTUI.Finish: the elapsed time, the auto-scan and ARP switches and the chunk numbers shown are not modelled.
- ScanTUI.ScanTUI.TickSnapshot: the chunk number shown is not modelled.
- ScanTUI.ScanTUI.TickApply: the ARP columns, the flag for highlighting and the change timestamps are not modelled.
- ScanTUI.ScanTUI.FastApply: the change timestamps are not modelled.
- ScanTUI.ScanTUI.AddDiscoverPlaceholder: the discovery timestamp is not modelled.
- ScanTUI.ScanTUI.UpsertHost: the discovery and change timestamps are not modelled.
- ScanTUI.ScanTUI.RemoveHost: the deletion of the two timestamps is not modelled.
- ScanTUI.ScanTUI.TriggerRescan: the flag for highlighting, the number of hosts and the progress counters are not modelled.
- ScanTUI.ScanTUI.ApplyRescanResults: the elapsed time, the number of hosts and the timestamps are not modelled.
- ScanTUI.ScanTUI.ReconcileRescanHostsLocked: the timestamps of changed and new hosts are not modelled.
- Two slices of Go that share one array: lists are values here, so a write through one slice that shows in another is not captured.
- Sockets, dialing, pings, the ARP cache, HTTP and TLS probing and multicast: their results are parameters.
- Wall-clock time: ticks are steps that may happen at any time.
- Output formats, flag parsing, logging, the port and vendor tables and device guessing: tables and thin wrappers.
- The XML and HTML extraction of UPnP, WSD and page titles: it rests on libraries that are not part of this model.
