# Verified models of the DNSCrypt proxy, the TLS record splitter and the packet redirector

A Dafny 4.11 project. It models the parts of the repository whose correctness is
not visible from one function: protocols between goroutines, a cache with two
linked structures, a packet pipeline, byte-level transformations that must be
undone exactly, and indexes that must agree with a simple specification. Check
the whole project with `dafny verify dfyconfig.toml`.

Each module follows one component.

- `PatternMatching`, `PatternMeaning`: the pattern matcher with all its stores, what
  the order in which patterns are added decides, and what each kind of pattern means.
- `CloakLoops`, `CloakTable`, `CloakOrder`, `CloakReport`, `Cycles`: the detection of
  loops among cloaking rules, a walk over a finite functional graph whose edges come
  from the matcher; the table it works on; and what the order in which a map fills
  the matcher decides, of the verdict and of the rule that is reported.
- `UdpConnPool`, `UdpConnPoolRuns`, `UdpConnHistory`: the critical sections of the
  connection pool as a class, every interleaving of the operations as a state machine
  whose steps are those critical sections, and the life of a pooled connection told
  from the steps. Locks are step guards; time is an input.
- `KeyRotation`, `KeySnapshots`: client-key rotation against server refresh, table
  reordering and the key snapshot of a query, one memory access at a time under
  the two locks.
- `PqResumption`, `PqTickets`: the resumption ticket slot, the network epoch and their
  interleavings, and when a query is resumed, told from the steps. Key derivations are
  function parameters.
- `LruSpec`, `LruCache`: the sharded cache as a recency sequence with its history,
  and the map and list that refine it.
- `PacketFilter`, `PacketPipeline`: the reusable packet block with its request
  arrays, the sequential filter, and the four workers that pass ten blocks round.
- `SocksRouter`: the TCP address rewriting and the connection map.
- `TlsSplit`, `TlsModes`: the ways of splitting a ClientHello, the mask generator,
  the custom plans and the choice of mode with its fallback.
- `QueryPadding`: padding, the size estimator, and the length of encrypted queries.
  The cipher is a parameter with the two equations it needs.
- `DomainRules`, `CritBit`, `Blocklist`: the reversed suffix index and the
  matcher's suffix branch, the crit-bit tree that holds the index, the list
  generator, and the generator and the matcher together.
- `Framing`, `Dns64`, `CertSelection`: length-prefixed packets, IPv4 addresses in
  IPv6 prefixes, and the choice of a certificate.

A run is a sequence of steps from the initial state, and `After` gives the state
it reaches, or none where a step was not possible. The main results are about
every such run.

Some promises do not hold of the code, and the model says exactly when they do.

- A suffix rule stands for a name and all names under it. The index finds all of
  them, for all names, if and only if no rule is under another
  (`UndelegatedCompleteIff`, `MatcherCompleteIff`); for one name the condition is
  that no longer key starts it in a way that hides the rule (`AlignedIff`,
  `SuffixKeyIff`).
- The loop detector's comment promises a verdict free of map iteration order.
  That is so for a given matcher, but the matcher is filled while ranging over the
  same map. A name's answer shows the order exactly when it has two contenders
  (`OrderIsHiddenIff`). Some order refuses a table exactly when contenders form a
  cycle (`RefusedBySomeIff`), some order accepts it exactly when there is no trap
  (`AcceptedBySomeIff`), and so whether it is refused is free of the order exactly
  when there is no cycle or there is a trap (`SameVerdictIff`). The rule that is
  reported is free of the order exactly when there is no cycle or the
  lowest-numbered rule that leads to one is in a trap (`SameReportIff`). Two tables
  are accepted in one order and refused in the other (`SubstringsAreDecidedByOrder`,
  `SuffixesAreDecidedByOrder`); of a third, always refused, the order decides the
  rule reported (`ReportIsDecidedByOrder`).
- With reverse entries on, the loader indexes an empty list exactly when a line
  gives a name target to a key without wildcard that earlier lines gave an IPv4
  address or made a reverse entry, and no IPv6 address (`LoadRules`, `NameAfterIPv4Breaks`,
  `NameForReverseEntryBreaks`).
- A client port that opens connections to two ports of one address shares one
  mapping (`OpeningIsFoundIff`, `SecondPortIsMisled`), and a session whose key is
  already mapped works only with the same mapping (`SessionIsTransparentIff`,
  `LeftoverMappingMisleads`).
- A key snapshot matches for listed servers; for a server that was replaced it
  matches exactly when the secret is still the one current at that time
  (`SnapshotMatchesIff`, `ReplacedServerMismatches`).
- The generated list, loaded by the matcher, blocks exactly the names under a listed
  name that is not allowed if and only if no emitted name starts with a dot
  (`BlocksExactlyIff`, `LeadingDotIsTrimmed`).
- The mask generator's comment says the second bit of the first byte is placed at
  random. The code sets bits 0, 3, 5 and 7 (`GenPatternMask`).

## Model

| member | source | states |
|---|---|---|
| CloakLoops.Next | pkg/dnscrypt/plugin_cloak.go:176-183 | the next rule on a chain of targets is always a rule of the table, when the matcher was filled from it |
| CloakLoops.NextIff | pkg/dnscrypt/plugin_cloak.go:167-183 | one rule leads to another exactly when neither has an address, both have a target, and the matcher answers the target of the first with the second |
| CloakLoops.Pigeonhole | pkg/dnscrypt/plugin_cloak.go:166-202 | elements without repetition from a finite set are no more than the set; the bound on every walk |
| CloakLoops.RevisitIsEndless | pkg/dnscrypt/plugin_cloak.go:166-202 | a chain that meets a rule twice has a rule at every distance, so it never ends |
| CloakLoops.ClosedTrailIsUnique | pkg/dnscrypt/plugin_cloak.go:166-202 | a rule has at most one trail that closes on itself, so the place a loop returns to is determined |
| CloakLoops.Walk | pkg/dnscrypt/plugin_cloak.go:173-193 | the walk from one rule ends; it reports a loop exactly when the chain is infinite, reports the pattern by which the chain returns, and otherwise the chain has ended within as many steps as there are rules |
| CloakLoops.DetectCloakingLoops | pkg/dnscrypt/plugin_cloak.go:166-202 | for every iteration order: no error exactly when no chain is infinite, then every chain ends within the number of rules; on error the rule reported has the lowest line number among all offenders |
| CloakLoops.VerdictIsDetermined | pkg/dnscrypt/plugin_cloak.go:160-165 | with one followed rule per line any two correct verdicts are equal, rule and pattern, so the map order does not show |
| CloakTable.LoadRules | pkg/dnscrypt/plugin_cloak.go:77-149 | the table holds, for every key, the last line that names it or makes it a reverse entry, its last name target, whether any address or reverse entry was given, and its first IPv6 address; it fails exactly when a line needs an IPv6 address for a reverse entry and its name has none; followed rules are on lines of their own, and keys are in lower case |
| CloakTable.LastTargetIsLast | pkg/dnscrypt/plugin_cloak.go:103-119 | the target kept for a key is that of the last line that gives it a name, in lower case |
| CloakTable.NoTargetIsEmpty | pkg/dnscrypt/plugin_cloak.go:103-119 | a key that no line gives a name has an empty target |
| CloakTable.FirstV6IsFirst | pkg/dnscrypt/plugin_cloak.go:108-116 | the IPv6 address kept is that of the first line that gives the key one, none when no line does |
| CloakTable.HasAddressIff | pkg/dnscrypt/plugin_cloak.go:108-147 | a rule is one for an address exactly when some line gives its key one or makes it a reverse entry |
| CloakTable.ReverseKeyIs | pkg/dnscrypt/plugin_cloak.go:122-141 | no reverse entry without the option or for a name with a wildcard; otherwise one from the IPv4 address of the line, or the first IPv6 address of its name |
| CloakOrder.FillMatcher | pkg/dnscrypt/plugin_cloak.go:151-155 | ranging over the table in any order fills the matcher in that order, and fails exactly when some key is not a well-formed pattern |
| CloakOrder.Load | pkg/dnscrypt/plugin_cloak.go:77-158 | the outcome of loading: each failure exactly when it is due, a table that is accepted or refused as some order of filling has it, accepted only without a trap and refused only where contenders form a cycle |
| CloakOrder.EdgeIsHiddenIff | pkg/dnscrypt/plugin_cloak.go:176-183 | the next rule after a rule is the same for every order of filling if and only if all contenders for its target lead the same way |
| CloakOrder.VerdictIgnoresOrder | pkg/dnscrypt/plugin_cloak.go:166-202 | where every followed target leads one way, every order gives the same offenders and the same reported rule and pattern |
| CloakOrder.RefusedBySomeIff | pkg/dnscrypt/plugin_cloak.go:151-158 | some order of filling gets the table refused if and only if followed rules and contenders for their targets form a cycle; otherwise every order accepts it |
| CloakOrder.AcceptedBySomeIff | pkg/dnscrypt/plugin_cloak.go:151-158 | some order of filling gets the table accepted if and only if it has no trap, a set of followed rules whose targets have contenders and none outside the set |
| CloakOrder.SameVerdictIff | pkg/dnscrypt/plugin_cloak.go:151-158 | whether the table is refused is the same for every order of filling if and only if contenders form no cycle or there is a trap |
| CloakTable.NameAfterIPv4Breaks | pkg/dnscrypt/plugin_cloak.go:133-138 | a file on which the loader indexes an empty list: a name with an IPv4 address, then a name target for it |
| CloakTable.NameForReverseEntryBreaks | pkg/dnscrypt/plugin_cloak.go:133-138 | the same of a name target for a key that an earlier line has made a reverse entry |
| CloakOrder.SubstringsAreDecidedByOrder | pkg/dnscrypt/plugin_cloak.go:151-158 | two substring rules of which one order is accepted and the other is refused as recursive |
| CloakOrder.SuffixesAreDecidedByOrder | pkg/dnscrypt/plugin_cloak.go:151-158 | two rules stored as one suffix of which one order is accepted and the other is refused as recursive |
| CloakReport.OffendsInSomeIff | pkg/dnscrypt/plugin_cloak.go:166-202 | the chain of a rule is infinite in some order of filling if and only if a walk over followed rules and contenders for their targets leads from the rule to a cycle |
| CloakReport.OffendsInAllIff | pkg/dnscrypt/plugin_cloak.go:166-202 | the chain of a rule is infinite in every order of filling if and only if the rule is in a trap |
| CloakReport.ReportsIffRefused | pkg/dnscrypt/plugin_cloak.go:184-202 | in every order, some rule is the lowest-numbered offender if and only if the table is refused |
| CloakReport.VerdictIsReport | pkg/dnscrypt/plugin_cloak.go:184-202 | the rule the detector names is the lowest-numbered offender of that order |
| CloakReport.SameReportIff | pkg/dnscrypt/plugin_cloak.go:160-202 | every order accepts the table, or every order reports the same rule, if and only if contenders form no cycle or the lowest-numbered rule that leads to a cycle is in a trap |
| CloakReport.ReportIsDecidedByOrder | pkg/dnscrypt/plugin_cloak.go:151-202 | three rules that every order refuses, of which one order reports the second and another the third |
| UdpConnPool.GetShard | pkg/dnscrypt/udp_conn_pool.go:47-53 | the loop over the address computes the 31-multiplier hash with 32-bit wrap-around, and the shard is below 64 |
| UdpConnPool.WrapAroundDoesNotShow | pkg/dnscrypt/udp_conn_pool.go:47-53 | the shard is that of the address read as a number to the base 31, modulo 64: the 32-bit wrap-around loses only multiples of 64 |
| UdpConnPool.SplitStale | pkg/dnscrypt/udp_conn_pool.go:74-83 | the loop keeps exactly the connections that are not stale, in order, and drops exactly the stale ones |
| UdpConnPool.PoolShard.TakeLast | pkg/dnscrypt/udp_conn_pool.go:94-111 | the connection handed out is the one returned last and is no longer pooled; nothing else changes |
| UdpConnPool.PoolShard.Add | pkg/dnscrypt/udp_conn_pool.go:113-142 | kept exactly when the pool is open and the address has fewer than four; then appended, otherwise the shard is unchanged |
| UdpConnPool.PoolShard.DropStale | pkg/dnscrypt/udp_conn_pool.go:69-92 | the shard afterwards is the shard without its stale connections, addresses left with none removed, and exactly those connections are dropped |
| UdpConnPool.PoolShard.DropAll | pkg/dnscrypt/udp_conn_pool.go:150-168 | the shard is empty and everything it held is dropped |
| UdpConnPoolRuns.StepKeepsPlaced | pkg/dnscrypt/udp_conn_pool.go:69-168 | every step of every goroutine keeps each dialled connection in exactly one place |
| UdpConnPoolRuns.StepKeepsBounded | pkg/dnscrypt/udp_conn_pool.go:113-142 | every step keeps each address at four connections or fewer |
| UdpConnPoolRuns.StepKeepsLocked | pkg/dnscrypt/udp_conn_pool.go:94-168 | a shard's mutex is held by the one goroutine inside its critical section |
| UdpConnPoolRuns.StepKeepsSealed | pkg/dnscrypt/udp_conn_pool.go:113-168 | a shard swept by Close stays empty, because a Put that was let in before the flag is still holding its mutex |
| UdpConnPoolRuns.EveryRunIsSafe | pkg/dnscrypt/udp_conn_pool.go:69-168 | the four invariants hold after every interleaving of Get, Put, Discard, cleanup and Close |
| UdpConnPoolRuns.ConnectionsAreConserved | pkg/dnscrypt/udp_conn_pool.go:69-168 | after every interleaving a dialled connection is pooled once, with a caller or goroutine, or closed: exactly one of them; no address has more than four |
| UdpConnPoolRuns.ClosedPoolIsEmpty | pkg/dnscrypt/udp_conn_pool.go:113-168 | once a Close has returned every shard is empty, whatever Puts overlapped it or came later |
| UdpConnHistory.EveryRunIsByReturn | pkg/dnscrypt/udp_conn_pool.go:94-142 | after every interleaving the pooled connections of an address stand in the order in which they were last returned |
| UdpConnHistory.PooledWasReturned | pkg/dnscrypt/udp_conn_pool.go:113-142 | a pooled connection has the time of the Put that returned it last, for that address, when fewer than four were pooled |
| UdpConnHistory.GetIsHandedTheLatest | pkg/dnscrypt/udp_conn_pool.go:94-111 | a Get that finds connections is handed the one returned last of them, and only that one leaves the pool |
| UdpConnHistory.SweepClosesIff | pkg/dnscrypt/udp_conn_pool.go:69-92 | a sweep closes a pooled connection exactly when the sweep began more than thirty seconds after its last return, and keeps it pooled otherwise |
| UdpConnHistory.EveryGoroutineIsExplained | pkg/dnscrypt/udp_conn_pool.go:69-142 | a Put carries the connection and address it was called with, and a sweep the time at which it began, through every interleaving |
| UdpConnHistory.PutLooksFirst | pkg/dnscrypt/udp_conn_pool.go:113-120 | a Put on a closed pool gives its connection up without asking for the lock |
| UdpConnHistory.PutKeepsIff | pkg/dnscrypt/udp_conn_pool.go:125-142 | under the lock a Put keeps its connection exactly when the pool is open and the address has fewer than four |
| KeyRotation.InsertServer | pkg/dnscrypt/serversInfo.go:293-303 | the loop puts the new server in the place of the first of its name, or at the end |
| KeyRotation.ReplacedNames | pkg/dnscrypt/serversInfo.go:293-303 | names in the table stay unique |
| KeyRotation.StepKeepsConsistent | pkg/dnscrypt/crypto.go:87-131 | every step keeps each key tied to the secret it was computed from, and the re-keyed part of the table to the current secret |
| KeyRotation.StepKeepsLocked | pkg/dnscrypt/crypto.go:117-131 | the reader-writer lock is respected by every step |
| KeyRotation.StepKeepsOwned | pkg/dnscrypt/serversInfo.go:281-306 | a new server belongs to one goroutine until it is listed; queries use only servers that were listed |
| KeyRotation.StepKeepsInStep | pkg/dnscrypt/crypto.go:117-131 | outside a rotation the whole table has been re-keyed |
| KeyRotation.StepKeepsSnapped | pkg/dnscrypt/crypto.go:171-178 | what a query has copied under the read lock is still what is there |
| KeyRotation.EveryRunKeepsInv | pkg/dnscrypt/crypto.go:94-131 | the invariants hold after every interleaving of rotations, refreshes, reorderings and queries |
| KeyRotation.ListedServersAreKeyed | pkg/dnscrypt/crypto.go:94-131 | whenever the key lock is not write-held the shared key of every listed XSalsa20 or XChacha20 server is the one derived from its construction, the current client secret and its own public key; names are unique |
| KeySnapshots.EveryServerWasFetched | pkg/dnscrypt/crypto.go:92-104 | over every run a server keeps the name, construction and public key it was fetched with, and one of another construction its shared key too |
| KeySnapshots.KeyPairIsLastInstalled | pkg/dnscrypt/crypto.go:85-90 | after every run the client secret is the one that the last rotation to install a key was asked to install, and the public key is its own |
| KeySnapshots.SnapshotMatchesIff | pkg/dnscrypt/crypto.go:171-178 | a query's pair of shared key and public key comes from one client secret for every listed classic server, and for one that was replaced if and only if the secret is still the one that was current when it was replaced |
| KeySnapshots.ReplacedKeepsItsSecret | pkg/dnscrypt/serversInfo.go:293-303 | over every run the key of a replaced server belongs to the secret that was current when it was replaced |
| KeySnapshots.ReplacedServerMismatches | pkg/dnscrypt/crypto.go:171-178 | a run, listed, chosen, replaced, rotated, copied, whose pair does not match |
| KeySnapshots.NoDeadlock | pkg/dnscrypt/crypto.go:117-131 | in every reachable state with a goroutine that is busy or waits, one of them can take a step, although a rotation that waits for the lock keeps new readers out |
| PqResumption.ResumptionState.Store | pkg/dnscrypt/pq.go:150-160 | the slot is replaced whole |
| PqResumption.ResumptionState.Get | pkg/dnscrypt/pq.go:162-178 | a ticket is given exactly when there is one, it has not expired and its epoch is the current one; a live ticket of another epoch is wiped |
| PqResumption.NetworkMonitor.Check | pkg/dnscrypt/netmon.go:78-99 | the epoch goes up by one exactly when a known fingerprint changes |
| PqResumption.ControlRoundTrip | pkg/dnscrypt/pq.go:227-274 | stripping and parsing a control block gives back its lifetime and ticket and leaves the body whole |
| PqResumption.StepKeepsTraced | pkg/dnscrypt/pq.go:182-274 | every step keeps ticket and secret of each slot and each resumed query traceable to one response |
| PqResumption.EveryRunKeepsInv | pkg/dnscrypt/pq.go:182-274 | the invariants hold after every interleaving of network checks, queries and responses |
| PqResumption.ResumedQueriesStayInTheirEpoch | pkg/dnscrypt/pq.go:187-207 | a resumed query tagged with an epoch uses a ticket and a secret from one response to an earlier query to the same server with the same tag, even when the epoch moves between comparison and storing |
| PqResumption.EpochsNeverDecrease | pkg/dnscrypt/netmon.go:78-99 | along every run the epoch never goes down |
| PqTickets.SendResumesIff | pkg/dnscrypt/pq.go:182-226 | over every run a query is resumed exactly when the last ticket stored for its server is not empty, has not been wiped since by a query with another tag, was stored under its tag and has not reached its storing time plus lifetime; its key is then derived from that ticket and its secret, and otherwise it is fresh under the encapsulated key |
| PqTickets.EverySlotFollows | pkg/dnscrypt/pq.go:150-178 | after every run a server's slot holds the ticket stored last, or nothing once that was wiped |
| PqTickets.SplitIff | pkg/dnscrypt/pq.go:227-244 | a plaintext is split into control block and body exactly as the length at its start says, and refused exactly when it is too short for that |
| PqTickets.TicketIsReadIff | pkg/dnscrypt/pq.go:227-266 | a ticket with its lifetime is read from a plaintext exactly when the control block at its start carries it, whatever follows |
| PqTickets.HourTicket | pkg/dnscrypt/pq.go:227-266 | the octets of a response that carries a ticket of one octet for an hour |
| PqTickets.EveryGoroutineIsExplained | pkg/dnscrypt/pq.go:187-274 | over every run a tag is the epoch at its tagging, and a ticket about to be stored came with a response whose query's tag was the epoch when the two were compared |
| PqTickets.EpochCountsChanges | pkg/dnscrypt/netmon.go:78-99 | after every run the epoch is the number of checks that saw another fingerprint than the check before, which had one |
| PqTickets.ReceivingHoldsIff | pkg/dnscrypt/pq.go:245-266 | a response leads to a ticket exactly when it carries one |
| PqTickets.ComparingPassesIff | pkg/dnscrypt/pq.go:267-270 | a ticket is kept exactly when the epoch is still the tag of the query answered |
| PqTickets.NextQueryResumes | pkg/dnscrypt/pq.go:182-274 | a run in which a query is answered with a ticket and the next query, before the ticket expires, is resumed with it |
| LruSpec.SetConserves | pkg/spoofdpi/internal/cache/lru_cache.go:69-113 | entries before and the one stored are the entries after and the one reported |
| LruSpec.DeleteConserves | pkg/spoofdpi/internal/cache/lru_cache.go:115-127 | entries before are the entries after and the one reported |
| LruSpec.GetConserves | pkg/spoofdpi/internal/cache/lru_cache.go:57-67 | reading changes the order only, and reads the same again |
| LruSpec.SetThenGet | pkg/spoofdpi/internal/cache/lru_cache.go:69-113 | a Set that succeeds can be read back at once, and the shard is within its capacity |
| LruSpec.LookupFinds | pkg/spoofdpi/internal/cache/lru_cache.go:57-67 | a key is found exactly when an entry has it, with that entry's value |
| LruSpec.SetIsRefused | pkg/spoofdpi/internal/cache/lru_cache.go:79-84 | with skipExisting a present key, and with updateExistingOnly a missing one, leaves the shard as it is and reports nothing |
| LruSpec.SetAdds | pkg/spoofdpi/internal/cache/lru_cache.go:96-113 | otherwise a missing key goes to the front; only a full shard loses an entry, its last, which is reported |
| LruSpec.SetReplaces | pkg/spoofdpi/internal/cache/lru_cache.go:86-94 | and a present key gets the value and moves to the front, its old entry reported, all others in place |
| LruSpec.GetLaw | pkg/spoofdpi/internal/cache/lru_cache.go:57-67 | a key that is found moves to the front and all others keep their order; otherwise nothing changes |
| LruSpec.DeleteLaw | pkg/spoofdpi/internal/cache/lru_cache.go:115-127 | the key's entry alone leaves, and is reported |
| LruSpec.LastUseIsLatest | pkg/spoofdpi/internal/cache/lru_cache.go:57-113 | over every run the last use of a present key is the last Get or Set of it that was not refused |
| LruSpec.EveryRunKeepsInv | pkg/spoofdpi/internal/cache/lru_cache.go:26-135 | over every run: each shard within capacity, keys in their own shard once each and in order of last use, and values stored equal values present and values reported, as multisets |
| LruSpec.EvictsLeastRecentlyUsed | pkg/spoofdpi/internal/cache/lru_cache.go:100-111 | what a Set evicts was used less recently than everything that stays |
| LruCache.FindIsPosition | pkg/spoofdpi/internal/cache/lru_cache.go:57-67 | looking in the map finds the element a search of the list would find |
| LruCache.Shard.Get | pkg/spoofdpi/internal/cache/lru_cache.go:57-67 | the map and list of a shard refine the recency sequence: lookup, and move to front |
| LruCache.Shard.Set | pkg/spoofdpi/internal/cache/lru_cache.go:69-113 | refused without effect for a present key with skipExisting and for a missing one with updateExistingOnly, otherwise done and read back; the new sequence and the entry reported are those of the recency sequence |
| LruCache.Shard.Delete | pkg/spoofdpi/internal/cache/lru_cache.go:115-127 | the entry leaves map and list and is reported |
| LruCache.LruCache.constructor | pkg/spoofdpi/internal/cache/lru_cache.go:26-51 | every shard starts empty with the divided capacity, at least one |
| LruCache.LruCache.Get | pkg/spoofdpi/internal/cache/lru_cache.go:57-67 | only the key's own shard changes, as its recency sequence says |
| LruCache.LruCache.Set | pkg/spoofdpi/internal/cache/lru_cache.go:69-113 | refused without effect, or done and read back, exactly as the options and the presence of the key say; only the key's own shard changes, and onInvalidate is called once for exactly the entry dropped |
| LruCache.LruCache.Delete | pkg/spoofdpi/internal/cache/lru_cache.go:115-127 | only the key's own shard changes, and onInvalidate is called once for exactly the entry dropped |
| LruCache.LruCache.Has | pkg/spoofdpi/internal/cache/lru_cache.go:129-135 | true exactly when a lookup in the key's shard succeeds |
| LruCache.LruCache.Size | pkg/spoofdpi/internal/cache/lru_cache.go:152-160 | the number of entries present in all shards |
| LruCache.CapacityPerShard | pkg/spoofdpi/internal/cache/lru_cache.go:34-37 | the total divided by the number of shards, rounded down, and at least one |
| LruCache.Fnv1aKnownValues | pkg/spoofdpi/internal/cache/hash.go:12-19 | the hash of no octets and of one octet are the published values of 64-bit FNV-1a |
| LruCache.Run | pkg/spoofdpi/internal/cache/lru_cache.go:26-135 | every run of the cache, from its making, holds and has reported what the specification says of that run, whose invariants it therefore has |
| PacketFilter.PacketBlock.constructor | pkg/ndisapi/ndisapi-go/driver/packet_block.go:22-47 | a block starts with all counters zero and buffers of its own |
| PacketFilter.PacketBlock.FilterPacket | pkg/ndisapi/ndisapi-go/driver/packet_filter_queued.go:271-303 | one packet is decided, rewritten in its buffer and appended to the request its final direction names, or to none; later buffers are untouched |
| PacketFilter.PacketBlock.FilterPackets | pkg/ndisapi/ndisapi-go/driver/packet_filter_queued.go:271-303 | from zero counters a batch leaves the requests pointing at exactly what the sequential specification sends; no index reaches 510 |
| PacketFilter.PacketBlock.FilterSequentially | pkg/ndisapi/ndisapi-go/driver/packet_filter_simple.go:206-248 | one batch of the sequential filter delivers what the specification says and leaves all counters zero |
| PacketFilter.NothingIsSentTwice | pkg/ndisapi/ndisapi-go/driver/packet_filter_simple.go:206-248 | what a batch adds in both directions together is no more than the batch |
| PacketFilter.FilterBatchExtends | pkg/ndisapi/ndisapi-go/driver/packet_filter_simple.go:206-248 | a batch only appends to what was sent before, and what it appends depends on the callbacks' state alone |
| PacketFilter.OutgoingIsDecided | pkg/ndisapi/ndisapi-go/driver/packet_filter_queued.go:274-303 | one more packet of a batch with flag 1: the outgoing callback alone decides on it, without one it passes as it is; passed with flag 1 or redirected with flag 2 it goes to the adapter alone, passed or redirected with another flag to MSTCP alone, and otherwise nowhere |
| PacketFilter.IncomingIsDecided | pkg/ndisapi/ndisapi-go/driver/packet_filter_queued.go:274-303 | the same of every other packet and the incoming callback |
| PacketFilter.OtherCallbackIsNotAsked | pkg/ndisapi/ndisapi-go/driver/packet_filter_simple.go:209-217 | a batch that goes one way comes out the same whatever the other way's callback is |
| PacketFilter.FilterBatchJoins | pkg/ndisapi/ndisapi-go/driver/packet_filter_simple.go:206-248 | two batches one after the other are filtered as one |
| PacketPipeline.RingTurns | pkg/ndisapi/ndisapi-go/driver/packet_filter_queued.go:215-358 | every worker step leaves the ring of blocks as it is, or turns it by one block |
| PacketPipeline.StepKeepsClean | pkg/ndisapi/ndisapi-go/driver/packet_filter_queued.go:215-358 | every step leaves blocks clean: write counters zero before processing, batch counter zero after |
| PacketPipeline.EveryRunKeepsInv | pkg/ndisapi/ndisapi-go/driver/packet_filter_queued.go:215-358 | the invariants hold after every interleaving of the four workers |
| PacketPipeline.BlocksAreNeverLost | pkg/ndisapi/ndisapi-go/driver/packet_filter_queued.go:69-72 | in every reachable state each of the ten blocks is in exactly one channel or worker, the channels together never hold more than ten, no send waits, and blocks carry nothing over |
| PacketPipeline.PipelineRefinesSequential | pkg/ndisapi/ndisapi-go/driver/packet_filter_queued.go:215-358 | in every reachable state both sequences sent are prefixes of what one sequential pass over the packets read by the steps so far sends; when all blocks are back they and the callbacks' state are equal to it |
| PacketPipeline.LedgerHoldsWhatWasRead | pkg/ndisapi/ndisapi-go/driver/packet_filter_queued.go:215-248 | the batches on record are those the read steps of the run delivered |
| PacketPipeline.BatchesDoNotMatter | pkg/ndisapi/ndisapi-go/driver/packet_filter_simple.go:206-248 | filtering batch by batch is filtering all their packets in one batch |
| PacketPipeline.PipelineGoesOn | pkg/ndisapi/ndisapi-go/driver/packet_filter_queued.go:250-358 | in every reachable state with a block between reading and writing, one of the three workers there can take a step and has room to send |
| SocksRouter.Router.Handle | pkg/ndisapi/ndisapi-go/socks_local_router.go:120-211 | new connection map, verdict and rewritten packet for every packet |
| SocksRouter.RedirectedIff | pkg/ndisapi/ndisapi-go/socks_local_router.go:130-211 | a packet is redirected exactly when it opens a connection and has a proxy, or opens none and its connection is mapped, or comes from a proxy's port to a mapped client; every other packet passes unchanged and leaves the map as it was |
| SocksRouter.OpeningIsRedirected | pkg/ndisapi/ndisapi-go/socks_local_router.go:130-183 | a packet that opens a connection and has a proxy is redirected to the proxy's port as if from its destination's address and the client's port, under which the destination is then found if the key was free |
| SocksRouter.Router.OriginalDestination | pkg/ndisapi/ndisapi-go/socks_local_router.go:455-466 | a destination is found exactly when the key is mapped; it is at the remote address, and it is the destination of a packet of the run that opened a redirected connection under that key |
| SocksRouter.EveryRunIsAddressed | pkg/ndisapi/ndisapi-go/socks_local_router.go:120-211 | after every run, whatever the packets, each mapping's key address is its stored destination |
| SocksRouter.EveryRunIsServed | pkg/ndisapi/ndisapi-go/socks_local_router.go:120-211 | after every run in which no client opens a connection from a proxy port, mappings have our proxies and clients that are none |
| SocksRouter.EveryMappingWasOpened | pkg/ndisapi/ndisapi-go/socks_local_router.go:130-153 | a mapping was made by a packet of the run that opened its connection, with that destination and proxy |
| SocksRouter.MappingStays | pkg/ndisapi/ndisapi-go/socks_local_router.go:120-211 | a mapping stays as it was made until an RST or FIN of its own connection, whatever other packets come |
| SocksRouter.EndRemovesMapping | pkg/ndisapi/ndisapi-go/socks_local_router.go:120-211 | such a packet removes that mapping and no other |
| SocksRouter.RoundTripIff | pkg/ndisapi/ndisapi-go/socks_local_router.go:120-211 | a reply to a rewritten client packet comes back as the reply to the original packet if and only if the proxy's port is not itself the client port of a mapping to the same address |
| SocksRouter.ProxyPortAsClientIsMisled | pkg/ndisapi/ndisapi-go/socks_local_router.go:120-211 | a run of two opening packets, one of them from the proxy's own port to the same address, after which the other connection's reply goes astray |
| SocksRouter.SessionIsTransparentIff | pkg/ndisapi/ndisapi-go/socks_local_router.go:120-211 | from the opening packet, through any run that does not end the connection, packets reach the proxy with the destination recoverable and replies come back as from the destination, if and only if the key was free or held the very mapping asked for |
| SocksRouter.LeftoverMappingMisleads | pkg/ndisapi/ndisapi-go/socks_local_router.go:130-172 | a run that opens the same connection for two proxies in turn: the second opening packet goes to the new proxy and later ones to the old |
| SocksRouter.OpeningIsFoundIff | pkg/ndisapi/ndisapi-go/socks_local_router.go:120-160 | after an opening packet the proxy is told its destination if and only if the key was not taken by another port of the same address |
| SocksRouter.SecondPortIsMisled | pkg/ndisapi/ndisapi-go/socks_local_router.go:120-160 | one client port with connections to two ports of one address: the second is led to the first one's port |
| TlsSplit.SplitChunks | pkg/spoofdpi/internal/desync/tls.go:172-195 | the chunks joined are the message; all are full but a last short one; delays alternate; an error exactly for an empty message or size zero |
| TlsSplit.SplitFirstByte | pkg/spoofdpi/internal/desync/tls.go:197-206 | one byte and the rest, joined the message; an error exactly below two bytes |
| TlsSplit.SplitSNI | pkg/spoofdpi/internal/desync/tls.go:208-240 | what precedes the name, each byte of the name, and what follows it, joined the message; an error exactly for a range out of bounds |
| TlsSplit.SplitMask | pkg/spoofdpi/internal/desync/tls.go:242-283 | joined the message, none empty, delays alternating, every segment one marked byte or a whole run between marks |
| TlsSplit.MaskedCutIsUnique | pkg/spoofdpi/internal/desync/tls.go:242-283 | a mask admits one such cut of a message |
| TlsSplit.GenPatternMask | pkg/spoofdpi/internal/desync/tls.go:387-437 | for every value of the random source every byte has a bit; exactly bits 0, 3, 5 and 7 in byte 0, one or two in byte 1, three in byte 4 of which the last two are three apart, one in every other byte, and none beyond |
| TlsSplit.MarkWithinFifteen | pkg/spoofdpi/internal/desync/tls.go:242-283 | under such a mask any fifteen consecutive bytes hold a marked one, across word boundaries |
| TlsSplit.DenseSegmentsAreShort | pkg/spoofdpi/internal/desync/tls.go:242-283 | under such a mask the first segment is one byte and none is over fourteen, for messages of any length |
| TlsModes.CutPoints | pkg/spoofdpi/internal/desync/tls.go:334-348 | every point is its plan's offset from the start or from the name, moved by the draw, kept inside the message |
| TlsModes.PlainPlanCutsThere | pkg/spoofdpi/internal/desync/tls.go:334-348 | without noise a plan cuts at its offset from the start or from the name, or at the nearer end of the message |
| TlsModes.NoiseMovesTheCut | pkg/spoofdpi/internal/desync/tls.go:341-345 | with noise the cut is moved by the draw, by no more than the noise either way, and stays in the message |
| TlsModes.SortPoints | pkg/spoofdpi/internal/desync/tls.go:350-352 | a permutation ordered by position |
| TlsModes.CutAtAll | pkg/spoofdpi/internal/desync/tls.go:354-371 | joined the message, none empty, cut at exactly the positions asked for, each delayed as a point there says |
| TlsModes.ApplySegmentPlans | pkg/spoofdpi/internal/desync/tls.go:319-372 | cut at exactly the clamped points of the plans; an error exactly when there is no server name |
| TlsModes.Attempt | pkg/spoofdpi/internal/desync/tls.go:121-155 | each mode applies exactly when its splitter accepts the message, and the segments are then the cut that mode stands for |
| TlsModes.NothingIsLost | pkg/spoofdpi/internal/desync/tls.go:121-283 | whatever the mode, its segments joined are the message; none is empty but the one before a name at offset zero; under a generated mask the first is one byte and none is over fourteen |
| TlsModes.SplitMessage | pkg/spoofdpi/internal/desync/tls.go:121-170 | for every message, mode, mask, plan list and draw: the mode's cut, or the message whole after an error; either way the segments joined are the message and only a name at offset zero gives an empty segment |
| QueryPadding.Pad | pkg/dnscrypt/crypto.go:25-31 | the packet, 0x80 and zeros, to exactly the size asked for or one byte more than the packet |
| QueryPadding.Unpad | pkg/dnscrypt/crypto.go:33-45 | finds the packet if the bytes are a padding of any, and fails exactly when they are of none; the short-packet error exactly for all zeros |
| QueryPadding.PaddingIsUnique | pkg/dnscrypt/crypto.go:25-45 | bytes are a padding of at most one packet |
| QueryPadding.PqPad | pkg/dnscrypt/pq.go:115-127 | the packet, 0x80 and zeros, to the larger of the floor and the next multiple of 64 |
| QueryPadding.EveryEstimateIsASize | pkg/dnscrypt/estimators.go:29-48 | after every run of timeouts and responses the estimate is 512, 1024, 2048 or 4096 |
| QueryPadding.EstimatesMove | pkg/dnscrypt/estimators.go:29-48 | timeouts never lower the estimate and three in a row bring it to the maximum; a response never raises it and lowers it by one size at most |
| QueryPadding.EstimateChangesIff | pkg/dnscrypt/estimators.go:29-48 | a response halves the estimate exactly when the average is over 512 and under half of it; a timeout doubles it, up to 4096 |
| QueryPadding.QuestionSizeEstimator.constructor | pkg/dnscrypt/estimators.go:15-20 | starts at 512 |
| QueryPadding.QuestionSizeEstimator.BlindAdjust | pkg/dnscrypt/estimators.go:29-38 | the estimate is the one the events so far give |
| QueryPadding.QuestionSizeEstimator.Adjust | pkg/dnscrypt/estimators.go:40-48 | the estimate is the one the events so far give |
| QueryPadding.PaddedLengthFitsIff | pkg/dnscrypt/crypto.go:179-198 | a query fits its padded length exactly when it fits the limit of its transport; the length is within the limit, a multiple of 64 but where fragments are blocked, and at least the estimate on ordinary UDP |
| QueryPadding.PaddedLengthIs | pkg/dnscrypt/crypto.go:179-194 | 1252 over UDP where fragments are blocked, 4096 over TCP through a relay, and otherwise the first multiple of 64 after what is wanted, at most 4096: over UDP the estimate or the packet with 68 more, over TCP the packet with 68 and the octet drawn more |
| QueryPadding.SmallQueriesLookAlike | pkg/dnscrypt/crypto.go:179-194 | all queries under the estimate have one length on the wire, whatever the packets |
| QueryPadding.Encrypt | pkg/dnscrypt/crypto.go:143-209 | fails exactly when the packet cannot fit; otherwise the query has exactly the padded length, is the magic, the public key and the nonce followed by a text that opens, under that nonce and twelve zeros, to a padding of the packet |
| QueryPadding.RoundTrip | pkg/dnscrypt/crypto.go:143-209 | encrypting, opening and unpadding gives every packet that fits back |
| DomainRules.StringReverse | pkg/dnscrypt/common.go:108-114 | the swaps in place give the reversed string |
| DomainRules.LabelPrefixIsSuffix | pkg/dnscrypt/plugin_block_undelegated.go:192-205 | a rule ends a name at a label exactly when the reversed rule starts the reversed name at a label |
| DomainRules.LongestPrefix | pkg/dnscrypt/vendor/github.com/k-sone/critbitgo/critbit.go:272-295 | the specification of a lookup: the longest stored key that starts the string, none exactly when no key does |
| DomainRules.PluginBlockUndelegated.Init | pkg/dnscrypt/plugin_block_undelegated.go:174-182 | the index holds exactly the reversed rules |
| DomainRules.PluginBlockUndelegated.Eval | pkg/dnscrypt/plugin_block_undelegated.go:192-205 | blocked exactly when the longest key that starts the reversed name ends at a label |
| DomainRules.UndelegatedIsSound | pkg/dnscrypt/plugin_block_undelegated.go:192-205 | a blocked name is a rule or under one, and no longer rule fits |
| DomainRules.UndelegatedCompleteIff | pkg/dnscrypt/plugin_block_undelegated.go:192-205 | every name under a rule is blocked, for all names, if and only if no rule is under another |
| DomainRules.AlignedIff | pkg/dnscrypt/plugin_block_undelegated.go:192-205 | the longest rule a name is under is found exactly when no longer key starts the reversed name |
| PatternMatching.IsGlobCandidate | pkg/dnscrypt/pattern_matcher.go:43-52 | true exactly when there is a question mark, a bracket, or a star inside |
| PatternMatching.PatternMatcher.Add | pkg/dnscrypt/pattern_matcher.go:54-123 | a pattern is refused exactly when it is not well formed; otherwise it goes, in lower case and without its marks, to the store of its kind: tries keep the first value, the exact map the last, lists grow at the end |
| PatternMatching.PatternMatcher.Eval | pkg/dnscrypt/pattern_matcher.go:125-168 | the answer is that of the first store that has one: exact, suffix, prefix, substrings in order, globs in order; nothing for names under two characters |
| PatternMatching.AnswerIsContender | pkg/dnscrypt/pattern_matcher.go:125-168 | whatever the order of the additions, a pattern that answers is one of the contenders read off the table, is reported as it is stored, and one answers if there is any |
| PatternMatching.EarliestContenderAnswers | pkg/dnscrypt/pattern_matcher.go:125-168 | of the contenders for a name the one added first answers |
| PatternMatching.OrderIsHiddenIff | pkg/dnscrypt/pattern_matcher.go:125-168 | every order of the additions gives a name the same answer if and only if it has one contender at most |
| PatternMatching.UnambiguousHidesOrder | pkg/dnscrypt/pattern_matcher.go:125-168 | no two patterns stored as one suffix, one substring at most, no name with two globs: then no order shows in any answer |
| PatternMeaning.LoweredByLetter | pkg/dnscrypt/pattern_matcher.go:101 | upper-case letters of a pattern are stored as the same letters in lower case, all else as it is |
| PatternMeaning.SubstringMeans | pkg/dnscrypt/pattern_matcher.go:70-76 | a pattern with a star at both ends answers exactly for the names, of two characters or more, in which its text occurs |
| PatternMeaning.PrefixMeans | pkg/dnscrypt/pattern_matcher.go:77-81 | a pattern with a star at its end answers exactly for the names that start with its text |
| PatternMeaning.ExactMeans | pkg/dnscrypt/pattern_matcher.go:82-88 | a pattern with an equals sign answers exactly for the name that is its text |
| PatternMeaning.SuffixMeans | pkg/dnscrypt/pattern_matcher.go:89-96 | a pattern without marks, or with a leading star or dot or both, answers exactly for its text and the names that end with a dot and its text |
| PatternMeaning.GlobMeans | pkg/dnscrypt/pattern_matcher.go:62-68 | a well-formed glob answers exactly for the names its lower-case form matches |
| PatternMeaning.RefusedIff | pkg/dnscrypt/pattern_matcher.go:62-99 | the patterns refused are the eight that have nothing in them, and globs that are not well formed |
| PatternMeaning.ContainsIffOccurs | pkg/dnscrypt/pattern_matcher.go:155-159 | the search for a substring succeeds exactly when the substring is somewhere in the name |
| PatternMeaning.AnswerPrevails | pkg/dnscrypt/pattern_matcher.go:125-168 | whatever the order of the additions, the pattern that answers applies to the name, none of an earlier kind does, and no longer suffix or prefix does; nothing answers only where nothing applies and the suffix branch finds nothing |
| PatternMeaning.SameTextTwice | pkg/dnscrypt/pattern_matcher.go:102-123 | of two patterns with one text the tries keep the first value and the other stores the last |
| PatternMatching.PatternMatcher.EvalSuffix | pkg/dnscrypt/pattern_matcher.go:134-149 | the suffix branch: the key found by the two lookups, its rule and its value |
| DomainRules.SuffixKeyIsLongest | pkg/dnscrypt/pattern_matcher.go:134-149 | a key found by either lookup ends at a label, and no longer such key exists |
| DomainRules.SuffixKeyIff | pkg/dnscrypt/pattern_matcher.go:134-149 | the longest rule a name is under is found exactly when no longer key starts the reversed name, or none starts it without its last label |
| DomainRules.SecondLookupFinds | pkg/dnscrypt/pattern_matcher.go:139-147 | with rules com and example.com the second lookup finds com for fooexample.com, which the first does not |
| DomainRules.MatcherIsSound | pkg/dnscrypt/pattern_matcher.go:134-149 | a matched name is a rule or under one, and no longer rule fits |
| DomainRules.MatcherCompleteIff | pkg/dnscrypt/pattern_matcher.go:134-149 | every name of two characters or more under a rule is matched if and only if no rule is under another |
| DomainRules.NestedRulesMissNames | pkg/dnscrypt/pattern_matcher.go:134-149 | with rules com and example.com the name a.fooexample.com is under a rule and is missed |
| DomainRules.OneCharacterIsMissed | pkg/dnscrypt/pattern_matcher.go:126-128 | a name of one character is missed even by the rule that is the name, though the other plugin blocks it |
| CritBit.BitsDiffer | pkg/dnscrypt/vendor/github.com/k-sone/critbitgo/critbit.go:13-23 | two numbers agree in all bits above the highest difference and differ in it |
| CritBit.KeysPart | pkg/dnscrypt/vendor/github.com/k-sone/critbitgo/critbit.go:43-75 | at the critical bit two different keys take different directions, and before it they are alike, also when one key is a prefix of the other |
| CritBit.SearchFinds | pkg/dnscrypt/vendor/github.com/k-sone/critbitgo/critbit.go:83-91 | the search leads to a key that is in the tree |
| CritBit.EndedIsPassed | pkg/dnscrypt/vendor/github.com/k-sone/critbitgo/critbit.go:70-91 | the search for a longer key never ends at a key that stops at the offset of a node on its way |
| CritBit.LaterKeysTurnAlike | pkg/dnscrypt/vendor/github.com/k-sone/critbitgo/critbit.go:143-150 | where the insertion stops, all keys below turn as the key that was found, away from the new one |
| CritBit.PlaceKeepsValid | pkg/dnscrypt/vendor/github.com/k-sone/critbitgo/critbit.go:110-163 | the new node at that place leaves a valid tree |
| CritBit.InsertKeepsValid | pkg/dnscrypt/vendor/github.com/k-sone/critbitgo/critbit.go:110-169 | an insertion adds the key with its value to what the tree holds, or nothing if the key is there, and keeps the tree valid |
| CritBit.FindsLongest | pkg/dnscrypt/vendor/github.com/k-sone/critbitgo/critbit.go:272-295 | in a valid tree the one descent with its fallback finds the longest key that starts the string, and nothing only if no key does |
| CritBit.EveryTrieIsValid | pkg/dnscrypt/vendor/github.com/k-sone/critbitgo/critbit.go:110-169 | after every series of insertions the tree is valid and holds the first value given for each key |
| CritBit.LookUpIsLongestPrefix | pkg/dnscrypt/vendor/github.com/k-sone/critbitgo/critbit.go:272-295 | after every series of insertions, in any order, a lookup gives exactly the longest inserted key that starts the string, with its first value: the promise the suffix index is built on |
| Blocklist.HasSuffix | pkg/dnscrypt/utils/generate-domains-blocklist/generate-domains-blocklist.py:171-177 | true exactly when a proper ancestor is in the set, or the empty name is |
| Blocklist.CoveredByGlob | pkg/dnscrypt/utils/generate-domains-blocklist/generate-domains-blocklist.py:159-168 | true exactly when another of the glob patterns matches the name |
| Blocklist.SortNames | pkg/dnscrypt/utils/generate-domains-blocklist/generate-domains-blocklist.py:338 | a permutation in the order of the labels, last label first |
| Blocklist.EmitList | pkg/dnscrypt/utils/generate-domains-blocklist/generate-domains-blocklist.py:327-338 | one list, in any order, gives its names that no glob covers, that have no listed ancestor, are not allowed and are not there yet, once each and sorted |
| Blocklist.Emit | pkg/dnscrypt/utils/generate-domains-blocklist/generate-domains-blocklist.py:317-338 | whatever the order of lists and names, the output is exactly the listed names that no glob covers, without a listed ancestor, that are not allowed, without duplicates |
| Blocklist.OutputIsFlat | pkg/dnscrypt/utils/generate-domains-blocklist/generate-domains-blocklist.py:317-336 | no emitted name is under another, and none is allowed |
| Blocklist.OutputCovers | pkg/dnscrypt/utils/generate-domains-blocklist/generate-domains-blocklist.py:317-336 | every listed name that is not allowed is under an emitted name, or under a listed one that a glob covers |
| Blocklist.EmptyNameSilences | pkg/dnscrypt/utils/generate-domains-blocklist/generate-domains-blocklist.py:171-177 | the empty name among the listed or allowed names leaves an empty output |
| Blocklist.EmittedIff | pkg/dnscrypt/utils/generate-domains-blocklist/generate-domains-blocklist.py:317-336 | a listed name is emitted exactly when it is a glob or matched by none, is under no listed name, neither is nor is under an allowed one, and the empty name is in neither list |
| Blocklist.SortKeyIsReversed | pkg/dnscrypt/utils/generate-domains-blocklist/generate-domains-blocklist.py:338 | names are sorted by their labels in reverse order, joined by dots |
| Blocklist.FirstDifferenceDecides | pkg/dnscrypt/utils/generate-domains-blocklist/generate-domains-blocklist.py:338 | keys are compared where they first differ, and one that starts another comes first |
| Blocklist.NameIsStored | pkg/dnscrypt/pattern_matcher.go:89-99 | the matcher stores a name of letters, digits, dots and hyphens as a suffix rule without one leading dot, and refuses a dot alone |
| Blocklist.BlocksExactlyIff | pkg/dnscrypt/utils/generate-domains-blocklist/generate-domains-blocklist.py:317-336 | a matcher filled with the output answers for exactly the names of two or more characters under a listed name that is not allowed, if and only if no emitted name starts with a dot |
| Blocklist.IsBlocked | pkg/dnscrypt/plugin_block_name.go:106-122 | generating, loading every line with Add, skipping those it refuses, and asking with Eval gives the answer of the loaded output; without leading dots among the listed names a name is blocked exactly when it is to be |
| Blocklist.LeadingDotIsTrimmed | pkg/dnscrypt/pattern_matcher.go:91-96 | a listed name with a leading dot, for which the matcher blocks a name that is not under it |
| Framing.PrefixWithSize | pkg/dnscrypt/common.go:59-68 | the two-octet length and the packet; an error exactly above 65535 bytes |
| Framing.ReadPrefixed | pkg/dnscrypt/common.go:70-92 | for every stream and every way it is cut into reads, with reads that give nothing and bytes that come with the error, the result is that of what is delivered before the error; at most the buffer is consumed, and no index passes it |
| Framing.LaterBytesDoNotMatter | pkg/dnscrypt/common.go:70-92 | bytes that come with the error change the result only where what came before was not yet a whole packet |
| Framing.FramedPacketReadsBack | pkg/dnscrypt/common.go:59-92 | a framed packet reads back exactly when it has 17 to 4095 bytes, whatever follows; otherwise the too-short or too-large error |
| Framing.TruncatedPacketIsRefused | pkg/dnscrypt/common.go:70-92 | no proper prefix of a framed packet reads as a packet: too short or too large once the length is there and out of bounds, and closed otherwise |
| Framing.RoundTrip | pkg/dnscrypt/common.go:59-92 | framing and reading over a connection gives the packet back |
| Dns64.TranslateToIPv6 | pkg/dnscrypt/plugin_dns64.go:186-198 | the four octets at their places, octet 8 and all others as in the prefix; an index past the end only from /104 on |
| Dns64.PluginDNS64.Init | pkg/dnscrypt/plugin_dns64.go:48-59 | the configured prefixes are taken exactly when all parse and none is over 96 bits, and none that is over ever is |
| Dns64.PluginDNS64.Refresh | pkg/dnscrypt/plugin_dns64.go:215-259 | the prefixes taken from answers are those the answers show, each with room for an address |
| Dns64.PluginDNS64.Synthesize | pkg/dnscrypt/plugin_dns64.go:149-163 | every prefix the plugin can hold, configured or discovered, is embedded in bounds |
| Dns64.Discovered | pkg/dnscrypt/plugin_dns64.go:219-242 | a prefix found is one of the six lengths, the zero-extended start of the address, with a well-known address behind it |
| Dns64.LongestIsDiscovered | pkg/dnscrypt/plugin_dns64.go:219-242 | an address that shows a well-known one at some of the six lengths gives the longest of them |
| Dns64.DiscoveryRecoversPrefix | pkg/dnscrypt/plugin_dns64.go:219-242 | discovery applied to an embedded 192.0.0.170 or 192.0.0.171 gives every zero-extended /32, /40, /48, /56, /64 or /96 prefix back |
| Dns64.FetchPref64 | pkg/dnscrypt/plugin_dns64.go:215-254 | every prefix the answers show, once each; an error exactly when there is none |
| CertSelection.Check | pkg/dnscrypt/dnscrypt_certs.go:101-183 | the checks in their order pass exactly the usable certificates: well formed, signed, expected profile, valid now |
| CertSelection.VersionIsInProfile | pkg/dnscrypt/dnscrypt_certs.go:136-140 | with the expected profile the repeated version always agrees |
| CertSelection.Adopt | pkg/dnscrypt/dnscrypt_certs.go:202-220 | every field of the result comes from the one certificate, whatever was there before |
| CertSelection.SelectCert | pkg/dnscrypt/dnscrypt_certs.go:89-231 | an error exactly when no certificate is usable; otherwise the result is one single certificate's, no usable one is better by serial and then construction, and it is the last such |
| CertSelection.ChoiceIgnoresOrder | pkg/dnscrypt/dnscrypt_certs.go:89-231 | serial and construction chosen are the same for every order of the answers |
| CertSelection.FailureIgnoresOrder | pkg/dnscrypt/dnscrypt_certs.go:228-230 | whether there is a result is the same for every order of the answers |
| CertSelection.TiesGoToTheLast | pkg/dnscrypt/dnscrypt_certs.go:189-196 | of two certificates alike in serial and construction the later answer is taken |
| CertSelection.ClassicCertReadsBack | pkg/dnscrypt/dnscrypt_certs.go:101-220 | a certificate of version 1 or 2 built from its fields reads back as those fields: construction, serial, key, magic, forward security exactly for at most a week; it is usable exactly when the rest is signed and its period is one that holds now |
| CertSelection.PqCertReadsBack | pkg/dnscrypt/dnscrypt_certs.go:101-220 | the same of version 3 with its longer key and its profile, which must be the expected twelve octets |
| CertSelection.MalformedIsRefused | pkg/dnscrypt/dnscrypt_certs.go:102-127 | what is too short, does not start with DNSC or has another version is never used |
| CertSelection.HigherWins | pkg/dnscrypt/dnscrypt_certs.go:185-196 | the higher serial wins, and of equal ones the higher version, in whatever order they come |

## Left out

- CloakTable.LoadRules: of a rule's addresses only the first IPv6 address is kept, and the names listed in a reverse entry are not modelled, as neither decides the table's keys, targets or errors; reverse names are an input, in lower case.
- CloakOrder.SameVerdictIff: acceptance only; CloakReport.SameReportIff is about the rule that is reported.
- CloakOrder.VerdictIgnoresOrder: goes one way for the pattern that is reported; SameVerdictIff is exact for acceptance and SameReportIff for the rule.
- PqResumption.NetworkMonitor.Check: the epoch does not wrap around at 64 bits, which is out of reach of a counter of network changes.
- KeyRotation: the random key used for a weak public key is not modelled; shared keys are a function of the secret and the public key.
- KeySnapshots.SnapshotMatchesIff: ephemeral keys are not modelled; they use no stored shared key.
- LruCache.LruCache.Set: hash and mask are the remainder by the number of shards, which agrees because that number is a power of two.
- LruCache: ForEach and the list's links; a list is the sequence of its elements. Each operation holds one shard's lock throughout.
- PacketPipeline: event errors, shutdown and restart; a run starts from empty channels.
- PacketFilter: the driver's memory layout; a request holds buffer numbers.
- SocksRouter: the UDP branch, checksums, and process lookup, whose answer is an input.
- TlsModes.SplitMessage: the parser that finds the server name is an input; every range it could give is covered.
- TlsSplit.GenPatternMask: a 64-bit mask is the set of its one bits; the random value is an input.
- QueryPadding.QuestionSizeEstimator.Adjust: the moving average is an input, any integer.
- QueryPadding.Encrypt: the key snapshot is an input here and is the subject of KeyRotation; the post-quantum query's fields are not modelled, only its padding.
- DomainRules.PluginBlockUndelegated.Eval: looks up by the specification, a finite set of keys; CritBit proves that the tree meets it.
- CritBit.PlaceKeepsValid: the tree is a value rebuilt along one path; pointers changed in place are not modelled.
- CritBit: deletion, iteration and the other lookups of the library, which the indexes do not use.
- PatternMatching.PatternMatcher.Eval: glob matching is an arbitrary relation, and values are never nil, as in all callers.
- PatternMatching.PatternMatcher.Add: lower-casing is that of ASCII letters; names are ASCII.
- Blocklist.BlocksExactlyIff: lists without wildcards, of names in letters, digits, dots and hyphens, which is what the other parsers extract; wildcards are other kinds of rule.
- Blocklist.IsBlocked: the same lists.
- Blocklist.Emit: time-restricted names, comments in the output and the download of lists are not modelled; glob matching is an arbitrary relation.
- Framing.ReadPrefixed: reads that give nothing are finitely many.
- CertSelection.SelectCert: fetching, the retry over TCP, and log messages; signature check, key derivation and post-quantum context are parameters.
- Transport, configuration, monitoring, user interface, DNS message packing, other plugins: input and output, or members that would only be easy.
