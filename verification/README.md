# dnsredir, modelled and verified in Dafny

dnsredir is a CoreDNS plugin that redirects queries for listed names to upstream hosts. This project
models the parts of it whose correctness is hard to see, and proves what its code, comments and
documentation promise about them, for every input and every run.

- **Connection pool** (`TransportTypes`, `ConnPool`, `ConnManager`, `PoolSystem`, `PoolRefinement`,
  `PoolHistory`).
  `ConnPool` says on values what each event does to the buckets. `ConnManager.Transport` is the manager
  as the source has it, with buckets that are windows on backing arrays shared with the windows handed
  to `closeConns`. `PoolSystem` is the whole as a state machine: one manager, any number of clients in
  `Exchange`, any number of closers, ticks, stop and an abstract clock, in any interleaving.
  `PoolRefinement` shows that every run of that machine is served by the manager's select loop, and
  `PoolHistory` says what the fields of a state mean in terms of the run.
- **Retries** (`Retry`). The two loops of `ServeDNS`, of which the inner one has no counter: its bound is
  proved of the runs of the connection pool.
- **Host selection** (`RandomPolicy`, `RoundRobin`, `SharedRobin`, `Selection`). Uniformity of the
  reservoir, starvation under a wrapping and under a shared counter, and `HealthCheck.Select`.
- **Health accounting** (`Health`) and **dial timeouts** (`DialTime`, `DialRace`).
- **Domain index, loaders, reload and routing** (`Domains`, `DomainIndex`, `NameLists`, `PathReload`,
  `UrlReload`, `ListReload`, `Routing`).
- **Default route** (`Netlink`). The attribute walk, against an encoder.

`Options`, `Int32`, `Bags` and `Mods` hold optional values, 32-bit wrap-around, counting and division.

Where the code and its comments or documentation disagree, the model follows the code, a lemma shows an
input on which the claim fails, and another says, for all inputs, exactly when it holds:

| claim | fails | holds exactly when |
|---|---|---|
| buckets are sorted by last use, and a tick removes all that has expired | `SortednessFails` | `SortedExactlyWithoutDelay`, and of one bucket `SweepExact` |
| `max_fails` is a number of consecutive failed health checks | `NotConsecutiveChecks` | `DocumentedExactly` |
| round robin uses every healthy host | `UnsteadyStarves`, `CommonDivisorStarves`, `WrapStarves` | `FairExactlyWhenSteady`, `FairInTurnsExactlyWhenCoprime`, `FairInTurnsExactly` |
| policy `spray` is a policy like the others | `SprayIgnoresHealth` | `AlwaysUpExactly` |
| the dial timeout is twice the average limited to a frame | `TwiceTheAverage` | `TwiceTheAverage` |
| the dial average is an average of what was observed | `LaggingLeavesHull` | `InHullExactly`, and of updates that load together `SimultaneousUpdates` |
| a file with equal time and size is unchanged | `SameStampStale` | `CoherentExactly`, `FileReloadExactly` |
| a content with an equal hash is unchanged | `ZeroHashSkipped`, `CollisionSkipped` | `TakesEffectExactly` |
| the index finds what a search through all names would | `NotCanonicalMissed`, `NotFindableIsMissed` | `IndexIsPlainSearchExactly`, `AddedIsFoundExactly` |
| `max_retry` limits the hosts tried | `LimitedExactly` | `LimitedExactly` |
| names given to Match have no trailing dot | `ServiceNameCrashes`, `EscapedDotCrashes` | `PanicsExactly`, `CrashesExactly`, `AskBlockExactly` |
| both loaders read the same lines | `CarriageReturnDiffers`, `LongLineLosesLines` | `SameLinesExactly`, `HarmlessExactly` |

Time, the stamps of connections, random draws, the state of hosts, network outcomes and the device table
are parameters or steps of the environment.

## Model

| member | source | states |
|---|---|---|
| `TransportTypes.BucketChoiceAgrees` | type.go:20-50 | for every host the configuration builds and every udp or tcp request, the bucket chosen on dial is the one chosen on yield, that bucket determines the kind of connection, and neither panic is reachable |
| `ConnPool.SearchFrom` | healthcheck.go:128-130 | without assuming any order, the binary search ends where the predicate turns from false to true |
| `ConnPool.Search` | healthcheck.go:128-130 | the loop computes that place |
| `ConnPool.Sweep` | healthcheck.go:108-137 | a clean-up cuts a bucket in two and reorders nothing |
| `ConnPool.CutPoint` | healthcheck.go:112-131 | where the code cuts is where the split of a clean-up lies, for a tick and for a stop |
| `ConnPool.Take` | healthcheck.go:70-84 | a dial takes the last connection or dooms the whole bucket, and nothing else |
| `ConnPool.SweepBounds` | healthcheck.go:108-137 | in a bucket sorted up to slack d, a clean-up keeps only connections younger than expire + d and dooms only ones at least expire - d old |
| `ConnPool.SweepExact` | healthcheck.go:127-135 | a clean-up separates young from stale if and only if the bucket is partitioned by age, for which sortedness suffices |
| `ConnPool.TakeBounds` | healthcheck.go:70-82 | a dial lends only what is younger than expire, and a bucket it throws away is at least expire - d old throughout |
| `ConnPool.YieldKeepsNearSorted` | healthcheck.go:86-88 | receiving a connection keeps slack d if and only if no pooled stamp exceeds its own by more than d |
| `ConnPool.DialConserves` | healthcheck.go:67-84 | a dial loses no connection and duplicates none |
| `ConnPool.YieldConserves` | healthcheck.go:86-88 | a yield adds exactly one connection to what is pooled |
| `ConnPool.SweepConserves` | healthcheck.go:108-137 | a clean-up of all buckets loses no connection and duplicates none |
| `ConnPool.ClosersHaveWork` | healthcheck.go:79-83 | no closer is started on an empty window |
| `ConnManager.ApartReplace` | healthcheck.go:74-88 | popping, appending in place and appending into a new array keep buckets and handed-out windows apart |
| `ConnManager.ApartHand` | healthcheck.go:79-82 | handing out the front or the whole of a bucket keeps the windows apart |
| `ConnManager.Transport.constructor` | healthcheck.go:50-60 | a new transport has three empty buckets and nothing handed out |
| `ConnManager.Transport.Pop` | healthcheck.go:71-75 | reslicing removes the last element and touches no handed-out window |
| `ConnManager.Transport.HandAll` | healthcheck.go:79-82 | the bucket becomes empty and its whole window is handed out intact |
| `ConnManager.Transport.HandFirst` | healthcheck.go:131-135 | the front of the window is handed out and the rest stays |
| `ConnManager.Transport.AppendInPlace` | healthcheck.go:86-88 | append writes beyond the bucket and into no handed-out window and no other bucket |
| `ConnManager.Transport.AppendCopy` | healthcheck.go:86-88 | append into a larger array, whatever its growth, leaves the old one, and the windows on it, as they are |
| `ConnManager.Transport.ServeDial` | healthcheck.go:67-84 | answer, buckets and handed-out windows are those of the value model |
| `ConnManager.Transport.ServeYield` | healthcheck.go:86-88 | the bucket grows by the connection, or the manager panics exactly when the value model does |
| `ConnManager.Transport.CleanupBucket` | healthcheck.go:111-136 | one bucket is split as by the value model |
| `ConnManager.Transport.Cleanup` | healthcheck.go:108-137 | the loop over the buckets does what the value model does, in order |
| `ConnManager.Transport.ConnManager` | healthcheck.go:62-99 | for every sequence of events the loop's buckets, answers and handed-out windows are those of the value model, and every window ever handed out still holds what it held then |
| `ConnManager.NothingLost` | healthcheck.go:62-99 | for every sequence of events served without a panic, what was yielded is, each as often as it was, pooled, handed to a closer or in an answer, and every dial was answered once |
| `ConnManager.StopIsLast` | healthcheck.go:93-96 | whatever comes before, a stop is the last event served and leaves nothing pooled |
| `PoolSystem.StepConserves` | healthcheck.go:62-155 | no step of clients, manager or closers changes how often a connection is accounted for, except the dial that creates it |
| `PoolSystem.PooledKeepStamps` | healthcheck.go:143-144 | the stamp in Yield never changes the time of a pooled connection |
| `PoolSystem.InvStep` | healthcheck.go:62-155 | every step keeps ownership, kinds, the rendezvous, near-sortedness and ages |
| `PoolSystem.ExactlyOnePlace` | healthcheck.go:62-155 | in every reachable state each connection ever dialled is in exactly one place: one position of one bucket, one client, the ret channel, one position of one closer, or once among the closed or the dropped |
| `PoolSystem.RetiredForGood` | healthcheck.go:80-82 | a connection given to a closer, closed or dropped is never pooled, offered or held again, however the run goes on |
| `PoolSystem.NoCrosstalk` | healthcheck.go:339-347 | at most one accepted dial is unanswered, only its own caller can take the answer, nobody waits when ret is closed, and the manager never panics |
| `PoolSystem.LentMatchesRequest` | healthcheck.go:339-366 | a client holds only a connection of the network it asked for, pooled or fresh |
| `PoolSystem.StopDrains` | healthcheck.go:93-96 | nothing is pooled after stop |
| `PoolSystem.BucketsNearSorted` | healthcheck.go:127-127 | every reachable bucket is sorted up to the largest delay between stamp and receipt, and its entries were young at the last tick |
| `PoolSystem.ExpiryIsTimely` | healthcheck.go:108-137 | in every run a tick keeps only connections younger than expire + delay, and a tick or a dial dooms only ones at least expire - delay old |
| `PoolSystem.DialLendsYoungest` | healthcheck.go:67-84 | in every run a dial is lent a fitting connection younger than expire and, up to the delay, the youngest of all pooled ones that fit; it is lent none only if all that fit are at least expire - delay old; without delay it is lent one if and only if one that fits is younger than expire |
| `PoolSystem.SortednessFails` | healthcheck.go:127-135 | for every configuration with a delay, a run in which a bucket is not sorted and a tick keeps a connection that has expired |
| `PoolSystem.SortedExactlyWithoutDelay` | healthcheck.go:127-135 | for every configuration, all buckets of all reachable states are sorted if and only if there is no delay, and so for ticks that leave nothing expired |
| `PoolRefinement.RunIsServed` | healthcheck.go:62-137 | every interleaving of the system is a sequence of events for which the select loop ends with the same buckets, the same closers, the answers that the run put on ret in the same order, and no panic |
| `PoolHistory.UsedIsLastStamp` | healthcheck.go:143-144 | in every run the used time of a connection is the time of its last stamp |
| `PoolHistory.PooledSinceTick` | healthcheck.go:89-92 | in every run, what is pooled was stamped less than expire + delay before the last tick |
| `PoolHistory.CachedMeansPooled` | healthcheck.go:344-347 | in every run a client takes its connection for a cached one if and only if that has been pooled before |
| `PoolHistory.EndsAreCounted` | healthcheck.go:148-154 | in every run there are as many dropped connections as yields that timed out and as many closed ones as failed exchanges and closings |
| `PoolHistory.TimesOutLate` | healthcheck.go:148-154 | a yield is given up no earlier than 25 ms after its stamp |
| `PoolHistory.RequestGetsItsKind` | healthcheck.go:339-366 | in every run, the connection held for a request is over the protocol of the host, or over that of the request for a plain dns host |
| `PoolHistory.IdleExactly` | healthcheck.go:419-469 | an exchange ends exactly by a failed dial, an error, or a yield that is received or times out |
| `PoolHistory.ClientGoesOn` | healthcheck.go:339-347 | in every reachable state, what each client waits for is all that it can wait for |
| `PoolHistory.ManagerAndClosersGoOn` | healthcheck.go:64-66 | in every reachable state the manager is ready for ticks and stop, or its answer can be taken, or it has stopped; a closer can close the next connection |
| `PoolHistory.StopIsFinal` | healthcheck.go:93-96 | after a stop nothing is ever pooled, however the run goes on |
| `Retry.LendsBounded` | healthcheck.go:70-88 | in every run, lent plus left in a bucket is at most what it held plus what was yielded into it |
| `Retry.CachedFailsBounded` | healthcheck.go:442-454 | in every run, the cached connections that one client finds closed plus what is left in the bucket are at most what it held plus what was yielded, plus one if the client had one at the start |
| `Retry.ClosedCallShrinks` | healthcheck.go:424-456 | a call that returns errCachedConnClosed leaves the bucket smaller by one, but for what was yielded into it meanwhile |
| `Retry.MetClosedExactly` | healthcheck.go:440-456 | errCachedConnClosed is returned if and only if the call ends with end of file on a connection from the pool |
| `Retry.ExchangeUntilUsable` | dnsredir.go:92-103 | with calls that are parts of any run of clients, manager and closers, the inner loop ends after at most one call more than the bucket held and received, all but the last having returned errCachedConnClosed |
| `Retry.ServeDNS` | dnsredir.go:77-142 | one request tries the hosts of its rounds in order until one answers in time, time is up, there is no host, or exactly maxRetry hosts have failed, 2^31-1 being no limit; each outcome if and only if; a host that answers within the limit decides the result; the failed ones are reported; a panic if and only if time is up before the first round |
| `Retry.LimitedExactly` | dnsredir.go:84-89 | max_retry limits the hosts tried by every request, if and only if the 32-bit counter can exceed it: below 2^31-1 |
| `RandomPolicy.Select` | policy.go:36-56 | the loop returns the up host that survives the draws |
| `RandomPolicy.ChosenIsUp` | policy.go:36-56 | an up host is returned, and none only if there is none |
| `RandomPolicy.Uniform` | policy.go:36-56 | each up host is returned for exactly (m-1)! of the m! vectors of draws and a down host for none, wherever the down hosts are |
| `RandomPolicy.ReducedFits` | policy.go:50-52 | what rand returns is reduced to the draw that it is congruent to |
| `RoundRobin.Walk` | policy.go:69-78 | the loop finds the first up host cyclically from its start |
| `RoundRobin.RoundRobin.Select` | policy.go:66-79 | the counter is incremented modulo 2^32 and the first up host from its residue is returned |
| `RoundRobin.ChosenIsFirstUp` | policy.go:69-78 | all hosts from the start up to the chosen one are down, and none is chosen only if all are down |
| `RoundRobin.FairExactlyWhenSteady` | policy.go:66-79 | in n consecutive calls each host that stays up is chosen however the others flap, if and only if the counter does not wrap among them or n divides 2^32 |
| `RoundRobin.SelectEach` | policy.go:66-79 | consecutive calls of Select start where that says, and n of them with a steady counter return every host that stays up |
| `SharedRobin.FairInTurnsExactlyWhenCoprime` | policy.go:13-18 | when k blocks take turns on the shared object, n calls of a block of n hosts reach every host that stays up if and only if k and n are coprime and the counter does not wrap among them or n divides 2^32 |
| `SharedRobin.FairInTurnsExactly` | policy.go:13-18 | for any number of blocks and of wraps, they do if and only if no two of them start at the same host |
| `SharedRobin.TurnIsStart` | policy.go:66-69 | the turns are those of consecutive calls on the shared counter |
| `Selection.SelectSequential` | policy.go:87-96 | the first up host in order |
| `Selection.Select` | healthcheck.go:616-660 | single host, all down, policy and spray fallback together, and when the shared counter moves |
| `Selection.SelectedIsUp` | healthcheck.go:616-660 | with any policy but spray: nothing if and only if all are down and spray is unset, always a pool member otherwise, and an up one whenever there is one |
| `Selection.SequentialSelects` | healthcheck.go:640-660 | policy sequential selects the first up host in order |
| `Selection.RoundRobinSelects` | healthcheck.go:640-660 | policy round_robin selects the first up host cyclically from the residue of the counter |
| `Selection.RandomSelects` | healthcheck.go:640-660 | policy random, and none at all, select each up host for exactly (m-1)! of the m! vectors of draws |
| `Selection.SpraySelects` | healthcheck.go:629-638 | spray, as a policy or as the fallback when all hosts are down, selects any host, the one drawn |
| `Selection.SprayIgnoresHealth` | upstream.go:354-358 | for every down host of a pool with an up one, a draw with which policy spray selects it |
| `Selection.AlwaysUpExactly` | upstream.go:354-358 | in a pool with an up host, a policy selects up hosts whatever is drawn, if and only if it is not spray or no host is down |
| `Health.UpstreamHost.Check` | healthcheck.go:474-485 | a failed check counts, a passed one resets |
| `Health.UpstreamHost.ExchangeFailure` | dnsredir.go:145-153 | a failed exchange counts and schedules a decrement, unless health checking is off |
| `Health.UpstreamHost.FailTimeout` | dnsredir.go:153-156 | the scheduled decrement |
| `Health.BalancedRun` | dnsredir.go:145-162 | in every run, modulo 2^32, the counter is failed checks since the last success plus decrements pending now minus decrements pending then |
| `Health.FailsBalance` | checkdown.go:7-11 | with fewer than 2^31 increments the balance is exact, bounds the counter from below, decides Down if and only if it reaches maxFails, and a down host has failed at least maxFails times since its last success |
| `Health.AccountIsHistory` | dnsredir.go:145-162 | the counts of the account are those of the events: failed checks and exchanges since the last success, decrements scheduled now and then |
| `Health.FailsOfHistory` | dnsredir.go:145-162 | so the counter is that balance of the events themselves |
| `Health.NotConsecutiveChecks` | README.md:145-145 | a host down without any failed check, and one up after max_fails failed checks in a row |
| `Health.DocumentedExactly` | README.md:145-145 | in every run with fewer than 2^31 increments, down means max_fails consecutive failed checks for every max_fails, if and only if as many decrements are pending as at the last success, or no check has failed since and no more are pending |
| `DialTime.Timer.UpdateDialTimeout` | healthcheck.go:281-285 | one update of the average, with truncating division |
| `DialTime.StaysInHull` | healthcheck.go:281-285 | over any observations the average stays between the extremes of its start value and the observations |
| `DialTime.Converges` | healthcheck.go:281-285 | k repeats of x give 4^k(abs(x-avg_k)-3) <= 3^k(abs(x-avg_0)-3) |
| `DialTime.ConvergesNoFaster` | healthcheck.go:281-285 | k repeats of x leave at least 3^k/4^k of the distance |
| `DialTime.QuarterOfTheWay` | healthcheck.go:281-285 | one update goes exactly a quarter of the way, rounded down |
| `DialRace.InHullExactly` | healthcheck.go:281-285 | over all interleavings of loads and adds, the average stays in the hull of its start and the observations if and only if no update lags by more than one add of others or one is in flight at a time |
| `DialRace.LaggingLeavesHull` | healthcheck.go:282-284 | with two updates in flight and a lag of two, a run that takes the average beyond all observations |
| `DialRace.TogetherIsRun` | healthcheck.go:282-284 | k updates that all load before any adds are such a run, with a lag of k-1 |
| `DialTime.SimultaneousUpdates` | healthcheck.go:282-284 | of these runs, k updates keep the average in the hull for all values if and only if k is at most four |
| `DialTime.TimeoutBounds` | healthcheck.go:266-275 | the timeout is monotone in the average and within one and five seconds |
| `DialTime.TwiceTheAverage` | healthcheck.go:260-275 | the timeout is twice the average limited to the frame if and only if the average is not between half the minimum and the minimum |
| `Domains.JoinSplit` | utils.go:61-62 | splitting a name into labels loses nothing |
| `Domains.StringToDomainCanonical` | utils.go:98-107 | what is accepted is canonical and accepting it again changes nothing |
| `Domains.StringToDomainInsensitive` | utils.go:91-107 | case and one trailing dot do not matter |
| `Domains.AcceptsLabels` | utils.go:61-107 | labels of one to 63 letters, digits and inner hyphens, joined by dots, with or without a dot at the end, are accepted and given back in lower case |
| `Domains.AcceptsOnlyLabels` | utils.go:61-107 | nothing else is accepted |
| `Domains.VisitedIsAncestor` | namelist.go:109-128 | the loop of Match visits exactly the label-wise ancestors of a canonical name |
| `Domains.VisitedEmpty` | namelist.go:123-127 | the loop gets to the empty name exactly from a name with a trailing dot and no empty label before it |
| `DomainIndex.DomainSet.Add` | namelist.go:64-89 | exactly the stored form of the string is added, or nothing if it is refused |
| `DomainIndex.SameBucketExactly` | namelist.go:47-61 | names share a bucket if and only if they have the same first two bytes, a single one counting as if a hyphen came first |
| `DomainIndex.DomainSet.Scan` | namelist.go:116-121 | whether some name of a bucket matches |
| `DomainIndex.DomainSet.Lookup` | namelist.go:110-121 | one round looks at exactly the names with the same first two bytes |
| `DomainIndex.DomainSet.Match` | namelist.go:104-131 | for every string, the loop decides the search over the set of all stored names, its panic included |
| `DomainIndex.DomainSet.Len` | namelist.go:39-45 | buckets are disjoint, so the sum of their sizes is the size of the union |
| `DomainIndex.PanicsExactly` | namelist.go:47-51 | for any stored names, the search panics if and only if the name has a trailing dot, no empty label before it, and is not found on the way |
| `DomainIndex.StoredRunsOut` | namelist.go:67-75 | only a name that stringToDomain refuses and idna.ToASCII accepts can be stored and panic |
| `DomainIndex.MatchExactly` | namelist.go:104-131 | for any stored names, the search succeeds if and only if some visited name hits its bucket |
| `DomainIndex.IndexIsPlainSearchExactly` | namelist.go:104-131 | for any pool of names: on all lists drawn from it and all canonical names, the index finds a name if and only if some stored name matches it, exactly when every name of the pool is findable: not the root, and without a capital or a trailing dot among its first two bytes if it has no empty label |
| `DomainIndex.AddedIsFoundExactly` | namelist.go:64-89 | the same in terms of the strings given to Add: each must be refused, be a domain name, or be turned by idna.ToASCII into a findable name |
| `DomainIndex.FindableIsFound` | namelist.go:104-131 | a findable stored name is found from every canonical name it matches, whatever else is stored |
| `DomainIndex.IndexIsAncestorSearch` | namelist.go:104-131 | for canonical names the plain search is for a stored name that equals the name or is an ancestor of it, and the bucket scan never changes the answer |
| `DomainIndex.NotCanonicalMissed` | namelist.go:67-75 | a string that Add stores as it is and the index then misses although plugin.Name matches it, and one that is not canonical either and is found |
| `NameLists.DnsmasqLine` | namelist.go:315-332 | a dnsmasq server line adds its domain, another key adds nothing, a line without slashes adds itself |
| `NameLists.OtherLine` | namelist.go:315-320 | a line with any number of slashes but two adds itself, up to a comment |
| `NameLists.CommentIgnored` | namelist.go:311-313 | what follows a hash sign does not matter |
| `NameLists.NamesOfMember` | namelist.go:302-336 | the names of a list are those of its lines |
| `NameLists.AddLine` | namelist.go:310-332 | one line adds exactly its names |
| `NameLists.ParseFile` | namelist.go:302-336 | the file loader builds the names of the scanned lines and counts the lines |
| `NameLists.ParseContent` | namelist.go:360-384 | the URL loader builds the names of the split lines and counts the lines |
| `NameLists.SameLinesExactly` | namelist.go:306-363 | for every text both loaders see the same lines, but for the empty one after a final newline, if and only if all lines are below 64 KiB and none ends in a carriage return |
| `NameLists.LongLineLosesLines` | namelist.go:306-335 | a line of 64 KiB or more ends the scan, so that lines are lost |
| `NameLists.DropsOneCR` | namelist.go:306-310 | the scanner drops one carriage return at the end of a line and nothing else |
| `NameLists.HarmlessExactly` | namelist.go:310-332 | dropping a final carriage return changes what a line adds, unless it is in a comment or in the server of a dnsmasq line, and only then not |
| `NameLists.LoadersAgree` | namelist.go:302-384 | both loaders build the same set from any text with lines below 64 KiB and no harmful carriage return |
| `NameLists.CarriageReturnDiffers` | namelist.go:306-310 | a text with a carriage return on which they differ |
| `PathReload.InvStep` | namelist.go:261-300 | every step of edits and updaters keeps: an item with the stamp of the current version has its names |
| `PathReload.EndsByCommitOrSkip` | namelist.go:274-299 | a call ends by storing what it parsed or because time and size are those of the item, not otherwise |
| `PathReload.StableUpdateIsCoherent` | namelist.go:261-300 | after any history of edits and concurrent updates, however a call ends on a file unchanged since its stat, it leaves the names and the stamp of the current content, if no earlier version had its time and size |
| `PathReload.CallRunsToEnd` | namelist.go:261-300 | from every reachable state a call can be made, or go on after its open whatever was edited since, to its end, and leaves the current names if no earlier version had the time and size |
| `PathReload.SettledUntilEdit` | namelist.go:213-224 | with the one updater of a list, that lasts from such an update until the next edit |
| `PathReload.SameStampStale` | namelist.go:274-283 | for every history in which the last time and size came up before, a run in which an update completes on the stable file and leaves other names, even if the two versions have the same |
| `PathReload.CoherentExactly` | namelist.go:261-300 | for every history, all calls that end on its stable end, in whatever way, leave the current names if and only if no earlier version has the time and size of the last |
| `UrlReload.PairIsConsistent` | namelist.go:339-395 | in every interleaving the names and the hash are the initial pair or those of one fetched content |
| `UrlReload.EndsByStoreOrSkip` | namelist.go:352-394 | a call that has fetched ends by storing what it built or because the hash is that of the item, not otherwise |
| `UrlReload.UpdateTakesEffect` | namelist.go:352-392 | however a call that has fetched ends, it leaves the names of what it fetched, if the hash tells the contents apart |
| `UrlReload.CallRunsToEnd` | namelist.go:339-395 | from every reachable state a call can fetch any content and go on to leave its names |
| `UrlReload.TakesEffectExactly` | namelist.go:352-392 | for any contents, all completed updates of all runs that fetch them take effect if and only if equal hashes mean equal names and hash zero means no names |
| `UrlReload.ZeroHashNeverLoads` | namelist.go:352-358 | in every run in which all that is fetched hashes to zero the item stays empty |
| `UrlReload.InitialUpdate` | namelist.go:399-418 | at most three attempts, stopping at the first success |
| `ListReload.FileReloadExactly` | namelist.go:261-336 | with the file loader, for every history: updates completed on the stable file leave what it loads from the current content if and only if no earlier version has the time and size of the last |
| `ListReload.FileAndUrlAgree` | namelist.go:261-395 | a list in a file and the same list at a URL come to the same names through any runs of the two protocols |
| `Routing.Upstream.MatchList` | namelist.go:196-206 | the items are asked in order until one does not say no |
| `Routing.Upstream.Match` | upstream.go:44-66 | the answer of the block, its panic included, for every string |
| `Routing.Upstream.Check` | upstream.go:198-211 | construction succeeds if and only if no INLINE name is excepted or makes the search panic and a root block has none; it is refused only for a conflict or a root block with INLINE names, and panics only on an INLINE name |
| `Routing.CrashesExactly` | upstream.go:198-206 | construction can panic if and only if an INLINE name has a trailing dot, no empty label before it, and is not found among the except names |
| `Routing.ServiceNameCrashes` | upstream.go:452-454 | the INLINE name _sip.example.com. is stored as it is and makes construction panic |
| `Routing.AskBlockExactly` | upstream.go:44-66 | every name that does not run out is routed if and only if it is listed or INLINE, or the block is for the root, and not excepted; a name that runs out is never routed, and panics unless it is excepted and in the set asked first |
| `Routing.RootMatchesAll` | upstream.go:45-48 | the panic on a name that the root does not match is unreachable |
| `Routing.RoutedSet` | upstream.go:44-66 | with findable names, the routed canonical names are the closure of list and INLINE names, or everything for the root, minus the closure of the except names |
| `Routing.InlineAlwaysRouted` | upstream.go:198-206 | through every reload each INLINE name of an accepted block is routed, and no search for it panics |
| `Routing.ExceptNeverRouted` | upstream.go:61-64 | through every reload no canonical name at or below a findable except name is routed, whatever else is listed |
| `Routing.Dispatch` | dnsredir.go:166-191 | unless the trimmed name runs out, the lowest-index block that routes it, or none, and no panic; if it does, no block, and a panic in the lowest-index block that does not shield it by its except names |
| `Routing.TrimmedIs` | dnsredir.go:173-176 | one dot at the end of a query name is dropped, except for the root |
| `Routing.EscapedDotCrashes` | dnsredir.go:173-181 | the query name foo\.. is trimmed to one that runs out: every block panics on it that does not shield it |
| `Netlink.Align` | route/util.go:20-22 | the least multiple of four not below its argument |
| `Netlink.MaskRoundsDown` | route/util.go:20-22 | clearing the two lowest bits rounds down to a multiple of four |
| `Netlink.WalkOne` | route/route_linux.go:79-110 | every step of the walk advances by at least four |
| `Netlink.Walk` | route/route_linux.go:78-114 | the loop on bytes computes the walk |
| `Netlink.GetDefaultRoute` | route/route_linux.go:58-121 | the loop over messages, with one reused struct, computes the answer in which each message starts from scratch |
| `Netlink.WalkIsFold` | route/route_linux.go:79-114 | walking any encoded attributes absorbs exactly those in order, ends at their total length, and never reads out of bounds |
| `Netlink.WalkExactly` | route/route_linux.go:78-114 | of all byte strings the walk accepts exactly the encodings of well-formed attributes, and reads past the end exactly of those that go on with a length cut off, or with a valid length and a type or read data cut off |
| `Netlink.FoldSucceedsExactly` | route/route_linux.go:80-105 | the walk of a message fails if and only if one of its attributes has an unknown type, a bad length or names a device that does not exist |
| `Netlink.FoldIsLast` | route/route_linux.go:84-105 | the last gateway and the device of the last output interface win |
| `Netlink.I32RoundTrip` | route/route_linux.go:88-88 | an interface index is read as the number that four little-endian bytes encode |
| `Netlink.I32Bytes` | route/route_linux.go:88-88 | and any four bytes are the encoding of what is read |
| `Netlink.FoldNamesDevice` | route/route_linux.go:84-94 | the device is that of the index that the last output interface encodes |
| `Netlink.RouteOfDump` | route/route_linux.go:59-121 | for every encoded dump the answer on bytes is the answer on routes, errors included |
| `Netlink.FoundRoute` | route/route_linux.go:112-121 | a route found is complete, is the fold of one main route alone, and every main route before it was well formed and incomplete |
| `Netlink.BadMessageIsError` | route/route_linux.go:60-75 | before a complete route, a message with a wrong length, or of the main table and shorter than its header, is an error |
| `Netlink.OnTheWire` | route/route_linux.go:59-121 | a route as its bytes are on the wire, and what is found in it |

## Left out

- DNS over HTTPS, TLS set-up, resolvers, HTTP fetching, `HostPort` and bootstrap parsing, ipset, pf, metrics, logging and Corefile directives: plumbing over libraries, or easy members.
- Real clocks, timers and randomness: time is an abstract number that does not go back, the manager reads it once per event, and `rand` makes ideal draws.
- Clients that dial after the manager has stopped stay blocked in the model, as in the code; no liveness is claimed.
- `expire 0`, which the configuration accepts and `time.NewTicker` does not: the pool model requires a positive expire.
- That `yieldTimeout` bounds the delay between stamp and receipt: the delay is a parameter of the configuration, and zero gives exact sorting.
- The effect of the check that every third failed exchange starts (`fails%failureCheck`): checks may end at any time in the model.
- `http://` entries in FROM, which leave nil items, files that cannot be opened, which leave the item as it is, and failures of `Stat` in a path reload.
- Retry.ServeDNS: for max_retry of 2^31-1, which is no limit at all, it is assumed that time is up at some round.
- Retry.ExchangeUntilUsable: ends only if the yields of other clients into the bucket do, and leaves out hosts reached over HTTPS, whose Exchange uses no pool.
- RoundRobin.RoundRobin.Select: pools of more than 2^31 hosts, for which the sum of index and offset would wrap, are excluded.
- SharedRobin.FairInTurnsExactlyWhenCoprime: unless n divides 2^32, states turns that take fewer than 2^32 calls in all; `SharedRobin.FairInTurnsExactly` holds of all turns.
- Health.FailsBalance: states runs with fewer than 2^31 increments; `Health.BalancedRun` holds of all runs, modulo 2^32.
- DialTime.StaysInHull: durations are unbounded integers, and updates follow one another; `DialRace.InHullExactly` is about updates that overlap.
- DomainIndex.DomainSet.Len: does not model 64-bit wrap-around of the sum.
- Domains.StringToDomainCanonical: lower-casing is that of ASCII; `idna.ToASCII` is any partial function.
- PathReload.CoherentExactly: requires that the last version does not have the stamp of an item never loaded, which no file has: Go's zero time has no location and differs from every file time.
- `plugin.Name.Matches` is a label-wise suffix test that ignores case and a trailing dot; it takes every dot for a separator, also an escaped one.
- Netlink.Walk: multi-byte fields are little-endian; a read past the end of a message, undefined in the source, is an outcome of its own.
