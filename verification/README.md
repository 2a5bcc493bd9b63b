# s5 verification

A Dafny model of the decision, accounting and protocol code of s5, an SSH and SOCKS5 proxy, with
proofs about whole runs and every interleaving rather than single calls.

| file | part of the system |
|---|---|
| `Slots.dfy` | connection slots: a global atomic counter and per-user atomic counters in a concurrent map |
| `RollingWindow.dfy` | rolling-window counters over a circular buffer with a cached sum |
| `Calendar.dfy`, `LazyCounter.dfy` | UTC day and month boundaries, and counters reset lazily at them |
| `Quota.dfy`, `Admission.dfy`, `Relay.dfy` | the quota tracker, check-then-record rate limiting, the relay loop |
| `Acl.dfy`, `AclPolicy.dfy` | access rules: text form, matching, two-phase check, layer merge |
| `Ban.dfy` | the auto-ban manager |
| `Pagination.dfy` | cursor pagination |
| `DnsCache.dfy` | the DNS cache and the connector that uses it |
| `Socks.dfy`, `SocksHandshake.dfy`, `SocksSession.dfy` | SOCKS5 addresses and UDP headers, each handshake message, client and server together |
| `Terminal.dfy`, `TerminalRuns.dfy`, `TerminalState.dfy`, `TerminalScreen.dfy` | the shell's line editor |
| `Paths.dfy` | path resolution and `cd` |
| `Tally.dfy`, `Text.dfy`, `Utf8.dfy`, `Split.dfy` | counting, text, UTF-8 and splitting |

Parts of the program that update state in place are classes or loops whose contracts tie the new
state to a specification function; the theorems are about those functions. Concurrency is a state
machine with one step per atomic or map operation, and a schedule that picks the next task.

Conventions:

- Time is a parameter, read once per call. Where a theorem needs the clock not to go back it says so.
- Name service answers, TCP connects, the dangerous-address classifier, credential checks and the
  text forms of IP addresses and base64 are function parameters. The only laws assumed of them are
  the predicates `Acl.Lawful` (printing then parsing a network, and that a star is no address) and
  `Pagination.Lawful` (encoding then decoding a cursor).
- Byte and connection totals are unbounded; the 32-bit slot counters wrap explicitly.
- Strings that the program handles as bytes (SOCKS5, the line editor) are their UTF-8 bytes.

Where the code does not keep a promise one might read into it, the model keeps the code, and a lemma
gives the failing inputs and the condition under which the promise holds:

- A rolling window is an exact sliding total in every run if and only if its buckets are one second
  wide (`ExactIffOneSecondBuckets`). The hour windows have 60-second buckets: on a clock of whole
  minutes they are exact (`SumOnGridIsSlidingTotal`), on every clock they hold exactly what no later
  call cleared (`SumIsKept`), and never more than was recorded. The tracker's verdicts are stated
  with the hourly total for such a clock, and otherwise with the window's reading.
- Handlers check the connection rate before they record. At most `c` of them in flight keep every
  window at or below `limit - 1 + c` (`RateLimitHolds`), every limit and `c` reach that
  (`OvershootReached`), so the limit itself is kept if and only if `c <= 1` (`NeverExceedsIff`).
- A printed access rule parses back to itself if and only if it is `Printable` (`RuleRoundTrip`).
- Cleaning up stale failures is never seen in a later answer across a change of the failure window
  if and only if the window does not widen (`CleanupUnseenIff`). `unban` can tell, exactly when the
  address has an expired entry (`UnbanSeesCleanupIff`).
- Pagination with a given page size is complete if and only if no page boundary falls between two
  items with the same key (`CompleteAtIff`), with every page size if and only if no two items share a
  key (`CompleteIffDistinctKeys`), and a limit of 0 ends a traversal early (`ZeroLimitEndsEarly`).
- When the table of failing addresses is full, a new address is never banned however often it fails
  (`FullNeverBans`), and runs get there (`FullTableReached`); the ban theorems ask for room at each
  failure.
- Storing or refreshing a key of the DNS cache must cost another key its unexpired entry if and only
  if the cache is full and the key is not among the least recently used (`InsertMustDropIff`), and
  may do so if and only if it is full and another key is among them (`InsertMayDropIff`).
- The client cuts lengths to one byte. With credentials that fit, the server never relays to another
  target than the client's if and only if the host has at most 255 bytes or its cut start is not an
  acceptable name (`NeverMisrelaysFitIff`); for other hosts the client reports a tunnel to the host
  while the server relays to the cut name (`CutHostRelayed`). For all credentials and hosts the
  exchange ends in what the server reads (`TalkDecides`), which is only ever the client's own request
  if and only if nothing else can be read in its messages (`NeverMisrelaysIff`). Over-long
  credentials without a byte 5 never get a relay (`OverlongNeverRelays`). An upstream proxy
  configured with a user name and no password is never let in (`TunnelIffRelay`).
- The client reads through a buffer that it drops when the tunnel is handed over. The tunnel starts
  with every byte the server sends behind its reply if and only if the last chunk read in the
  handshake ends with the reply (`TunnelStartsCleanIff`, `CoalescedBytesLost`).
- The line editor's limit of 4096 bytes is passed if and only if an arrow key recalls a longer line
  or a tab adds more than there is room for (`PastLimitIff`, over whole inputs `LimitHoldsIff`). Both
  happen (`RecallExceedsLimit`, `TabExceedsLimit`); a longer line gets into the history if and only
  if its repaired text is longer and not blank (`LongEntryIff`).
- The echo of typing, backspace, Ctrl+U, the history keys and completion keeps the screen right only
  under conditions on the line and the cursor, each stated exactly (`InsertShownIff`,
  `EraseShownIff`, `KillShownIff`, `ReplaceShownIff`, `ExtendShownIff`). A line with one two-byte
  character makes the history keys erase the end of the prompt (`PromptEaten`).
- `cd` keeps the working directory canonical from a canonical home, and the home is canonical if and
  only if the parts of the user name are proper components (`HomeCanonicalIff`).

## Model

| member | source | states |
|---|---|---|
| Slots.InvStep | src/proxy/mod.rs:79-206 | every atomic step of every task keeps: global counter = tasks holding a global slot, each user's counter = that user's guards plus drops not yet subtracted, every zero entry has a sweeper |
| Slots.InvRun | src/proxy/mod.rs:79-206 | the invariant holds after every schedule of any set of at most 2^32-1 tasks |
| Slots.SlotConservation | src/proxy/mod.rs:79-206 | in every reachable state the counters are exactly live guards plus operations in flight, no subtraction can meet zero, and live guards never exceed the global limit |
| Slots.PerUserCap | src/proxy/mod.rs:174-206 | if every acquire of a user carries a cap between 1 and k, the user never holds more than k guards, in any interleaving |
| Slots.GlobalSlotIff | src/proxy/mod.rs:161-172 | in every reachable state an acquire gets past the global limit exactly when live guards and unsettled acquires together are below it, and otherwise ends |
| Slots.GuardIff | src/proxy/mod.rs:174-205 | in every reachable state an admitted acquire gets its guard, one more for the user, exactly when there is no cap or the user's live guards and half-run drops are below it, and otherwise is refused |
| Slots.ReleaseSteps | src/proxy/mod.rs:79-91 | in every reachable state a refused acquire ends, and a drop takes one guard, then the user's slot, and sweeps exactly when that was the last |
| Slots.EntriesTracked | src/proxy/mod.rs:79-91 | a user with a live guard has a positive entry, no step removes a positive entry, and a zero entry has a task due to remove it |
| Slots.QuiescentExact | src/proxy/mod.rs:79-206 | at rest the map's keys are exactly the users with live guards, each entry is their number, and the entries add up to the global counter |
| Slots.AcquireAloneAnswers | src/proxy/mod.rs:161-206 | from every state at rest an acquire that runs alone succeeds exactly when both limits leave room; then exactly one guard of the user is added, else nothing has changed |
| Slots.DropAloneReleases | src/proxy/mod.rs:79-91 | from every state at rest a drop that runs alone removes exactly its guard |
| Slots.AcquireThenDrop | src/proxy/mod.rs:79-206 | a guard acquired and dropped restores the whole state |
| Slots.NoLeak | src/proxy/mod.rs:79-206 | once all tasks are idle again the engine is back in its initial state |
| Slots.Engine.constructor | src/proxy/mod.rs:161-173 | a new engine has no guards |
| Slots.Engine.AcquireConnection | src/proxy/mod.rs:161-206 | succeeds exactly when both limits leave room, and then adds one guard of the user to the multiset the counters represent |
| Slots.Engine.Drop | src/proxy/mod.rs:79-91 | removes exactly one guard of the user and keeps the counters in step |
| Slots.Engine.UserConnections | src/proxy/mod.rs:403-408 | reports the number of live guards of the user |
| RollingWindows.New | src/quota/rolling_window.rs:23-35 | buckets are one second wide exactly when there are at least as many buckets as seconds |
| RollingWindows.AdvanceRepresents | src/quota/rolling_window.rs:58-96 | advancing a one-second window keeps every slot equal to what was recorded in its second |
| RollingWindows.RecordRepresents | src/quota/rolling_window.rs:38-43 | recording adds the event to the log the window represents |
| RollingWindows.CachedIsTotal | src/quota/rolling_window.rs:49-52 | the cached sum is the total over the last n seconds |
| RollingWindows.SumIsSlidingTotal | src/quota/rolling_window.rs:38-105 | after every clocked run of record and sum, sum is exactly what was recorded in the last n seconds, for one-second buckets |
| RollingWindows.WideBucketsLoseCounts | src/quota/rolling_window.rs:58-96 | for every wider bucket a run in which a count younger than the window is already gone |
| RollingWindows.ExactIffOneSecondBuckets | src/quota/rolling_window.rs:23-105 | the window is exact in every run if and only if its buckets are one second wide |
| RollingWindows.SumOnGridIsSlidingTotal | src/quota/rolling_window.rs:38-105 | for every bucket width, on a clock that ticks in whole buckets, sum is exactly what was recorded in the time the buckets span |
| RollingWindows.SumIsKept | src/quota/rolling_window.rs:38-105 | for every bucket width and every clock, sum is exactly what was recorded and not cleared since by a call that found its bucket stale |
| RollingWindows.CachedSumConserved | src/quota/rolling_window.rs:38-96 | for every bucket size and even a clock that jumps back, the cached sum is the bucket sum and at most what was recorded |
| RollingWindows.RollingWindow.constructor | src/quota/rolling_window.rs:23-35 | the array of buckets starts as the specified empty window |
| RollingWindows.RollingWindow.AdvanceTo | src/quota/rolling_window.rs:58-96 | the zeroing loops, including the cheaper path for the whole ring, compute the specified expiry in place |
| RollingWindows.RollingWindow.RecordAt | src/quota/rolling_window.rs:38-43 | records in place as specified |
| RollingWindows.RollingWindow.SumAt | src/quota/rolling_window.rs:49-52 | answers the sliding total of every log the window represents |
| Calendar.FirstDayFollowing | src/quota/mod.rs:479-498 | the day number of a month's first day moves by the length of the month, leap years included |
| Calendar.GregorianDay | src/quota/mod.rs:479-498 | the day number of every month is the closed formula for Gregorian dates with years that begin in March |
| Calendar.BoundarySeconds | src/quota/mod.rs:473-498 | both boundaries in seconds, a day being 86400 of them |
| Calendar.MonthOfUnique | src/quota/mod.rs:479-498 | every day lies in exactly one month |
| Calendar.NextDayBoundary | src/quota/mod.rs:473-476 | the least midnight after now |
| Calendar.NextMonthBoundaryIsLeast | src/quota/mod.rs:479-498 | the least start of a month after now, which is also the start of a day |
| Calendar.SamePeriod | src/quota/mod.rs:473-498 | two times share a boundary exactly when they are in the same day or month, and a shared day is a shared month |
| Calendar.MonthsPeriodic | src/quota/mod.rs:479-498 | the month boundary lies ahead and changes only when it is reached |
| LazyCounters.TouchCounts | src/quota/mod.rs:69-89 | a lazily reset counter covers the period that contains now |
| LazyCounters.LazyResetIsExact | src/quota/mod.rs:69-89 | over every run, lazy reset equals eager reset: the counter is exactly what was recorded in the current period |
| LazyCounters.DayWithinMonth | src/quota/mod.rs:403-415 | today's total is at most this month's, which is at most the lifetime total |
| LazyCounters.PeriodsAreCalendar | src/quota/mod.rs:69-89 | the period totals are the totals of the calendar day and month of now |
| Quotas.HourRecord | src/quota/rolling_window.rs:38-43 | an hour window stays the sum of its buckets and at or below what was recorded, and on a clock of whole minutes stays exact |
| Quotas.HourAdvance | src/quota/rolling_window.rs:49-96 | read on a clock of whole minutes it is exactly what was recorded in the last 3600 seconds |
| Quotas.RateVerdictMeans | src/quota/mod.rs:147-195 | each verdict of the rate check in numbers: exactly when its own limit is reached and none before it |
| Quotas.ConnVerdictMeans | src/quota/mod.rs:207-219 | each verdict on connections in numbers |
| Quotas.ByteVerdictMeans | src/quota/mod.rs:249-271 | each verdict on bytes in numbers |
| Quotas.ConnQuotaHolds | src/quota/mod.rs:199-240 | whatever connections are asked for and when, no UTC day and no month holds more of them than its quota |
| Quotas.ConnRefusedIff | src/quota/mod.rs:199-240 | and one is refused exactly when its day or its month is full |
| Quotas.UserRateCheckOk | src/quota/mod.rs:166-195 | the user part of the rate check answers from the sliding totals of the user's connections, keeps the windows faithful, and reports the hourly limit only when the recorded connections have reached it |
| Quotas.QuotaTracker.constructor | src/quota/mod.rs:118-135 | an empty tracker on the UTC calendar, with a server-wide limiter for each limit above 0 |
| Quotas.QuotaTracker.CheckServerRate | src/quota/mod.rs:147-166 | the server-wide limiters answer from the sliding totals of all connections |
| Quotas.QuotaTracker.CheckUserRate | src/quota/mod.rs:166-195 | the user's limiters answer from the sliding totals of the user's connections; the hourly limit is reported only when the recorded connections have reached it |
| Quotas.QuotaTracker.CheckConnectionRate | src/quota/mod.rs:147-195 | the first limit reached by the log is reported, server before user, second before minute before hour, each exactly when its count has reached it; the hourly count is that of the last 3600 seconds on a clock of whole minutes and never above what was recorded; nothing is recorded |
| Quotas.QuotaTracker.TouchUser | src/quota/mod.rs:69-89 | after lazy reset the counters are exactly the totals of the current day and month |
| Quotas.QuotaTracker.RecordConnection | src/quota/mod.rs:199-240 | refuses exactly when the connections of this UTC day or month have reached the quota, naming the first, else logs one connection everywhere |
| Quotas.QuotaTracker.CompareConns | src/quota/mod.rs:207-219 | the day's and month's connection quotas decided from the connection log |
| Quotas.QuotaTracker.AddConn | src/quota/mod.rs:221-239 | the connection enters every counter, every window and the server-wide limiters once |
| Quotas.QuotaTracker.CompareBytes | src/quota/mod.rs:299-339 | total, day, month and hour quotas in that order, decided from the byte log; the hourly one is reported only when the recorded bytes have reached it |
| Quotas.QuotaTracker.CheckBandwidthQuota | src/quota/mod.rs:244-272 | each byte quota is reported exactly when all bytes, those of this UTC day or month, or the hour reading have reached it and none before it has; the hour reading is that of the last 3600 seconds on a clock of whole minutes and never above what was recorded; nothing recorded |
| Quotas.QuotaTracker.AddBytes | src/quota/mod.rs:275-297 | the bytes enter every counter and window once |
| Quotas.QuotaTracker.RecordBytes | src/quota/mod.rs:275-339 | records first and then decides in the same way from the new totals; the variant with a cached user state does the same |
| Quotas.QuotaTracker.GetUserUsage | src/quota/mod.rs:403-415 | the report is what the log says for this UTC calendar day and month, the last second and all time; day within month within all time, and the hourly reading within all time, exact on a clock of whole minutes |
| Admission.RateLimitHolds | src/socks/handler.rs:420-435 | with at most c handlers between check and record, every sliding second and minute holds at most limit - 1 + c connections, in flight included, per user and server-wide |
| Admission.OvershootReached | src/ssh/handler.rs:136-161 | for every limit and every c, per user and server-wide, per second and per minute, a run that reaches limit - 1 + c |
| Admission.NeverExceedsIff | src/socks/handler.rs:420-435 | no window of any run with at most c handlers in flight exceeds the limit if and only if c is at most 1 |
| Relays.StepBounded | src/proxy/forwarder.rs:55-126 | each add, load and stop step keeps the total below the quota plus one buffer per direction that is stopped or has added without looking |
| Relays.QuotaOvershootBound | src/proxy/forwarder.rs:12-126 | in every interleaving of any number of directions the total stays below the quota plus 8192 per such direction |
| Relays.NothingEntersAfterQuota | src/quota/mod.rs:244-257 | once the total has reached the quota it stays there, no waiting relay passes the pre-check, one that has added a chunk stops, and the reading directions add at most one more chunk each |
| Relays.DecidesByQuota | src/proxy/forwarder.rs:55-126 | below every quota a relay gets in and goes on, at the limit it is kept out or stopped |
| Relays.FeedCarries | src/proxy/forwarder.rs:55-126 | a relay that got in carries every chunk as long as the total before it is below the quota, and stops exactly with the one that reaches it |
| Relays.CountChunk | src/proxy/forwarder.rs:70-101 | a delivered chunk enters the log, the user's total and the session once, and the verdict tells whether the total, day and month quotas are still open |
| Relays.RelayOneDirection | src/proxy/forwarder.rs:48-126 | every delivered byte is counted once in the result, the session and the tracker; the loop goes on while every quota is open, stops at the first failure or exceeded quota and overshoots by less than one buffer |
| Text.ShowNatValue | src/config/acl.rs:54-62 | decimal printing of a number reads back as that number |
| Text.ParseShowU16 | src/config/acl.rs:385-409 | every port number survives printing and parsing |
| Text.ParseU16Iff | src/config/acl.rs:385-409 | exactly the decimal numbers below 65536 are ports, with or without a plus sign and leading zeros |
| Text.EqIgnoreCaseIff | src/config/acl.rs:413-427 | two names are equal exactly if they differ at most in the case of the 26 letters |
| Acl.ContainsIff | src/config/acl.rs:315-337 | a network holds exactly the addresses of its family in the block its prefix gives |
| Acl.HostNetIsOne | src/config/acl.rs:291-312 | the network of one address holds that address only |
| Acl.ParseShowPort | src/config/acl.rs:385-409 | the three port forms survive printing and parsing; an empty range is rejected |
| Acl.RuleRoundTrip | src/config/acl.rs:291-312 | parse(display(r)) == r exactly for the printable rules |
| Acl.RuleForms | src/config/acl.rs:352-383 | the other written forms: bracketed hosts with and without a port, a host without a port, a bracket never closed |
| Acl.BareV6 | src/config/acl.rs:352-383 | a bare IPv6 address is the whole host, on every port |
| Acl.ClassifiedAs | src/config/acl.rs:291-312 | a network text is a network, an address text the network of one address, any other text a pattern in lower case |
| Acl.BracketedNeverRoundTrips | src/config/acl.rs:352-383 | a host pattern that starts with a bracket never survives |
| Acl.ColonPatternSwallowsPort | src/config/acl.rs:352-383 | a family of accepted rules whose printed form parses to a different pattern |
| AclPolicies.HostnameMatchesMeaning | src/config/acl.rs:413-427 | a wildcard matches exactly the domain and its subdomains, ignoring ASCII case |
| AclPolicies.StarRuleDecides | src/config/acl.rs:341-347 | a rule for every host, from its text, denies or allows exactly a range with both its ends, one port, or all ports |
| AclPolicies.NetRuleDecides | src/config/acl.rs:315-347 | a network rule, from its text, decides exactly for the addresses of the network on the ports it says |
| AclPolicies.HostRuleDecides | src/config/acl.rs:315-347 | a host rule, from its text, decides exactly for the hosts its pattern matches on its port, whatever the address |
| AclPolicies.AddressRuleDecides | src/config/acl.rs:291-347 | a rule that is one address decides exactly for that address |
| AclPolicies.CheckVerbose | src/config/acl.rs:223-242 | deny before allow before default, and the report names the first matching rule |
| AclPolicies.CheckHostnameVerbose | src/config/acl.rs:245-286 | the pre-check uses patterns, and networks only for literal addresses; the report names the first such rule |
| AclPolicies.PreCheckOfName | src/config/acl.rs:162-200 | the pre-check of a name that is no address is decided by the host patterns alone, deny first, and deferred where none matches |
| AclPolicies.TwoPhaseIsOnePhase | src/config/acl.rs:162-220 | passing pre-check and post-check is the same as one check with the resolved address; for literal hosts the pre-check already decides up to the default |
| AclPolicies.DirectPathAllowed | src/proxy/mod.rs:255-317 | a direct connection is allowed exactly when one check with the resolved address allows it |
| AclPolicies.ParseRules | src/config/acl.rs:82-84 | succeeds exactly when every rule parses, and then gives the parsed rules in order |
| AclPolicies.Extend | src/config/acl.rs:107-146 | the extended list matches exactly what the old list or the new texts match |
| AclPolicies.MergeLayers | src/config/acl.rs:107-146 | the merged list decides like the three layers together, with and without inheritance, and fails exactly when a used rule does not parse |
| AclPolicies.LayersMean | src/config/acl.rs:107-146 | case by case: own rules only without inheritance, else deny of any layer, allow of any layer, then the default of user, group and server in that order |
| AclPolicies.OrderAndMonotonicity | src/config/acl.rs:204-220 | decisions depend only on which rules are present, and more deny rules never turn Deny into Allow |
| Bans.DoAgrees | src/security/ban.rs:68-187 | each operation keeps the manager in agreement with a log that forgets nothing, and answers like it exactly unless it is an unban that meets an expired entry |
| Bans.AnswersMatchLog | src/security/ban.rs:90-187 | after every run in which the manager had room for each failing address when it failed, every answer is the log's, exactly unless an unban meets an expired entry |
| Bans.BansExactlyAtThreshold | src/security/ban.rs:90-124 | after every such run a failure bans exactly when the failures since the last automatic ban within the window reach the threshold |
| Bans.ExemptNeverBanned | src/security/ban.rs:90-177 | with the manager off or for an address in a listed network nothing is recorded and nobody is banned |
| Bans.BurstBans | src/security/ban.rs:90-146 | as many failures within one window as the threshold says ban the address from the last of them for the configured time, and fewer do not |
| Bans.SpreadNeverBans | src/security/ban.rs:90-124 | failures a window or more apart never add up |
| Bans.FullNeverBans | src/security/ban.rs:96-99 | when the table is full, a new watched address changes nothing however often it fails |
| Bans.FullTableReached | src/security/ban.rs:96-99 | a run that fills the table, after which an address is never banned |
| Bans.CleanedRun | src/security/ban.rs:179-187 | a run with a cleanup put in has the same log, and room wherever the run without it had |
| Bans.CleanupInvisible | src/security/ban.rs:179-187 | a cleanup anywhere changes no later answer but that of an unban, and that one exactly when an expired entry is gone |
| Bans.CleanupLeavesLive | src/security/ban.rs:179-187 | a cleanup leaves exactly the failures younger than the window and the bans still running, and no empty entry |
| Bans.WideningSeen | src/security/ban.rs:68-82 | for every widening of the window a run in which a cleanup changes a later answer |
| Bans.CleanupUnseenIff | src/security/ban.rs:68-187 | no cleanup before a change of the window is ever seen in a later answer if and only if the window does not widen |
| Bans.UnbanSeesCleanupIff | src/security/ban.rs:155-161 | in every state a cleanup changes the answer of unban exactly when the address has an expired entry |
| Bans.ManualBanLasts | src/security/ban.rs:149-161 | a manual ban answers yes exactly until it ends, for watched addresses, leaves other addresses alone, and unban ends it |
| Bans.BanManager.constructor | src/security/ban.rs:48-65 | starts without failures and bans |
| Bans.BanManager.Record | src/security/ban.rs:90-124 | the cap on the failure list never changes the new state |
| Bans.BanManager.CheckBanned | src/security/ban.rs:127-146 | true exactly for watched addresses with an unexpired ban; an expired one is dropped |
| Bans.BanManager.Clean | src/security/ban.rs:179-187 | drops stale failures and expired bans |
| Pagination.EffectiveLimit | src/api/pagination.rs:17-19 | 50 where none is asked for, else what is asked for up to 200 |
| StringOrder.LessIff | src/api/pagination.rs:48-56 | keys are compared at the first place where they differ, a prefix before its extensions |
| Pagination.FilteredMeaning | src/api/pagination.rs:48-56 | the filter keeps exactly the items beyond the cursor |
| Pagination.PageShape | src/api/pagination.rs:58-73 | a page is a slice, has a successor exactly when something is left, and its cursor decodes to its last key |
| Pagination.ExactlyOnce | src/api/pagination.rs:22-73 | every item that is in all snapshots of a finished traversal is shown exactly once |
| Pagination.ShownInOrder | src/api/pagination.rs:42-73 | however the list changes between requests, no item is shown twice and keys increase |
| Pagination.PagesCover | src/api/pagination.rs:42-73 | over an unchanged list the traversal ends and its pages concatenate to the list |
| Pagination.DuplicateKeyLost | src/api/pagination.rs:48-56 | a page boundary between two items with the same key loses one |
| Pagination.PagesTraverse | src/api/pagination.rs:42-73 | the pages of an unchanged list are what following its cursors collects |
| Pagination.CompleteAtIff | src/api/pagination.rs:42-73 | with a given page size the whole list is shown if and only if no page boundary falls between two items with the same key |
| Pagination.CompleteIffDistinctKeys | src/api/pagination.rs:42-73 | every page size shows the whole list if and only if keys are distinct |
| Pagination.ZeroLimitEndsEarly | src/api/pagination.rs:58-73 | a limit of 0 gives an empty page, no cursor and has_more |
| DnsCaches.StepFaithful | src/proxy/dns_cache.rs:44-143 | every operation keeps each entry equal to the latest insert of its key with its last use |
| DnsCaches.HitsAreCurrent | src/proxy/dns_cache.rs:44-84 | over every run a hit returns the usable, nonempty addresses of the latest insert within its time to live, and the size bound holds |
| DnsCaches.EvictionIsLru | src/proxy/dns_cache.rs:87-136 | over every run an unexpired entry is dropped only when the cache is full without its expired entries, and no survivor was used less recently |
| DnsCaches.InsertThenHit | src/proxy/dns_cache.rs:44-112 | a lookup within the time to live of an insert hits |
| DnsCaches.HitsForTtl | src/proxy/dns_cache.rs:44-122 | after an insert a lookup hits exactly for the fixed time, or the record's own time or 60 seconds, as the mode says; mode 0 neither stores nor hits |
| DnsCaches.CountersCount | src/proxy/dns_cache.rs:44-84 | over every run the counters are the lookups that hit and those that met an entry they could not use |
| DnsCaches.RefreshWhenFullDropsAnother | src/proxy/dns_cache.rs:87-112 | refreshing a key of a full cache that is not least recent costs another key its entry and leaves the cache one short of full |
| DnsCaches.InsertMustDropIff | src/proxy/dns_cache.rs:87-112 | an insert must cost another key its unexpired entry if and only if the cache is full without its expired entries and the key is not among the least recently used |
| DnsCaches.InsertMayDropIff | src/proxy/dns_cache.rs:87-136 | it may do so if and only if the cache is full and another key is among the least recently used |
| DnsCaches.AlikeRun | src/proxy/dns_cache.rs:44-143 | caches with the same unexpired entries follow each other through every run with the same answers |
| DnsCaches.CleanupChangesNoAnswer | src/proxy/dns_cache.rs:139-143 | what the cache may answer to whatever is asked of it after a cleanup is exactly what it might have answered without it, over every run |
| DnsCaches.DnsCache.constructor | src/proxy/dns_cache.rs:27-36 | starts empty |
| DnsCaches.DnsCache.Get | src/proxy/dns_cache.rs:44-84 | hit, expiry and guard filtering as specified, counters included |
| DnsCaches.DnsCache.EvictLru | src/proxy/dns_cache.rs:125-136 | the scan removes one least recently used entry |
| DnsCaches.DnsCache.Insert | src/proxy/dns_cache.rs:87-112 | makes room first, then stores the entry with its resolved time to live |
| DnsCaches.CacheKeyInjective | src/proxy/connector.rs:127-134 | different host and port pairs never share a key |
| DnsCaches.SafeKeepsOrder | src/proxy/connector.rs:40-55 | the guard only takes addresses away and keeps the order of the others |
| DnsCaches.GuardedFirst | src/proxy/connector.rs:12-193 | under the guard the connection goes to the first address, in the order of the name service, that is not dangerous and accepts, and fails if there is none |
| DnsCaches.ResolveAndCheck | src/proxy/connector.rs:12-65 | succeeds exactly when a usable address is left; a failed lookup, an empty answer and a wholly refused one are each reported exactly when they happen |
| DnsCaches.ConnectToAddrs | src/proxy/connector.rs:160-193 | connects to the first address that accepts, or fails if none does |
| DnsCaches.ConnectWithCache | src/proxy/connector.rs:115-157 | with the guard on never reaches a dangerous address, whatever was cached; a hit uses the cached addresses, a miss stores what it found |
| Utf8.LossyIsValid | src/shell/terminal.rs:124-124 | lossy conversion always gives UTF-8 |
| Utf8.LossyFixesOnlyInvalid | src/shell/terminal.rs:124-124 | lossy conversion leaves exactly the well-formed inputs unchanged |
| Utf8.EncodedIsChar | src/shell/terminal.rs:124-124 | the UTF-8 form of every scalar value is accepted as one character |
| Utf8.CharIsEncoded | src/shell/terminal.rs:124-124 | every accepted character is the UTF-8 form of a scalar value |
| Utf8.CutCharOnce | src/shell/terminal.rs:124-124 | a character cut short becomes one replacement character |
| Socks.AddrRoundTrip | src/socks/protocol.rs:428-458 | decoding an encoded address gives it back and reads nothing behind it |
| Socks.AddrReencodes | src/socks/protocol.rs:239-292 | encoding a decoded address gives the bytes back |
| Socks.WireForm | src/socks/protocol.rs:295-318 | the wire form in numbers: types 1, 3 and 4, ports high byte first, names behind their length, two zero bytes in front of a datagram header |
| Socks.Parse | src/socks/protocol.rs:239-292 | accepts exactly the datagrams that start with some header, reserved bytes aside, and returns that header and its length |
| Socks.HeaderUnambiguous | src/socks/protocol.rs:295-318 | no datagram starts with two different headers |
| Handshake.ValidateLabel | src/socks/protocol.rs:83-109 | the loop accepts exactly the well-formed labels |
| Handshake.ValidateDomain | src/socks/protocol.rs:39-112 | the loops accept exactly the valid domains |
| Handshake.ValidDomainPlain | src/socks/protocol.rs:39-112 | an accepted name holds only letters, digits, hyphens and dots |
| Handshake.DomainGrammar | src/socks/protocol.rs:39-112 | labels joined by dots, final dot or not, are valid exactly if at most 253 bytes and all good labels, or all numbers and an address |
| Handshake.OtherNames | src/socks/protocol.rs:39-112 | no other name is valid: not the empty one, a dot alone, or one that ends in two dots |
| Handshake.GreetingIff | src/socks/protocol.rs:322-339 | a greeting is version 5 and 1 to 255 methods behind their number, and nothing else is |
| Handshake.CredentialsIff | src/socks/auth.rs:16-48 | credentials are version 1 and two texts of 1 to 255 bytes, each behind its length, and nothing else is |
| Handshake.RequestIff | src/socks/protocol.rs:354-425 | a request for a target is version 5, command 1, any byte and the acceptable address, and nothing else is |
| Handshake.AnsweredFailures | src/socks/protocol.rs:354-421 | the bytes of the answers to another command, another address type and an invalid name |
| Handshake.GreetingUnderstood | src/proxy/connector.rs:225-235 | the server reads back the methods the client offers and nothing more |
| Handshake.CredentialsUnderstood | src/proxy/connector.rs:258-271 | the server reads back the credentials if and only if both are 1 to 255 bytes long |
| Handshake.ConnectUnderstood | src/proxy/connector.rs:297-310 | the server reads back the target if and only if it accepts the name |
| Handshake.ConnectRejected | src/socks/protocol.rs:383-402 | a name that fits but is not acceptable is refused, with a reply when its length is in range |
| Handshake.ConnectRead | src/socks/protocol.rs:354-425 | for every host of any length, the target the server reads and the bytes left behind it, or a refusal |
| Handshake.TargetReadIff | src/proxy/connector.rs:297-306 | the target read is the client's own exactly when the host is acceptable, and never another exactly when the length fits or the cut name is not acceptable |
| Session.BindSkipped | src/proxy/connector.rs:312-366 | the client skips the bind address of a successful reply exactly, of whichever kind |
| Session.RelaysIf | src/socks/handler.rs:271-520 | on every well-formed input with the password method offered, and every decision in its favour, the server relays to that target for those credentials, with these answers |
| Session.RelaysOnlyIf | src/socks/handler.rs:271-520 | and only on such an input |
| Session.RefusesWith | src/socks/handler.rs:271-461 | the bytes answered to a banned or limited peer, without the password method, on wrong credentials and to a user not admitted |
| Session.FailedConnect | src/socks/handler.rs:510-563 | the reply code for each reason a connection fails |
| Session.DialsWithoutAuth | src/proxy/connector.rs:225-372 | a proxy that selects no authentication gets the request at once, and any successful reply opens the tunnel behind it |
| Session.DialsWithPassword | src/proxy/connector.rs:238-372 | one that selects the password method gets credentials and then the request; a status other than 0 ends it |
| Session.CredentialsSent | src/proxy/connector.rs:258-271 | the credentials as sent, an absent password as an empty one |
| Session.DialsNoFurther | src/proxy/connector.rs:225-325 | another method, version or reply code, or a password asked for without a user name, leaves no tunnel and nothing more sent |
| Session.TunnelIffRelay | src/socks/handler.rs:265-520 | in every completed exchange, for every host and refused peers included, the client has a tunnel exactly when the server relays; the server relays to the target it reads under the client's credentials, and what is left of the request goes into the relay |
| Session.ServerDecides | src/proxy/connector.rs:312-366 | whatever the server takes for a request, its answer opens the client's tunnel exactly when it relays |
| Session.TalkDecides | src/proxy/connector.rs:225-366 | for every host and all credentials, after two rounds nothing more is sent, the server relays exactly what it reads in the client's messages, and the client has a tunnel exactly when it does |
| Session.NeverMisrelaysIff | src/proxy/connector.rs:262-306 | no server ever relays anything but the client's own request if and only if nothing else can be read in its messages |
| Session.NeverMisrelaysFitIff | src/proxy/connector.rs:297-306 | with credentials that fit, if and only if the host has at most 255 bytes or its cut start is not an acceptable name |
| Session.CutHostRelayed | src/proxy/connector.rs:297-306 | for every other host the client has its tunnel while the server relays to the cut name on a port made of the host's next two bytes, the rest of the host going into the relay |
| Session.OverlongNeverRelays | src/proxy/connector.rs:262-269 | credentials over 255 bytes without a byte 5 never get a relay |
| Session.RestIffBoundary | src/proxy/connector.rs:222-222 | what is left on the socket behind a buffered reader is everything not taken exactly at the end of a chunk |
| Session.TunnelStartsCleanIff | src/proxy/connector.rs:222-372 | the server's relay starts with what is left of the request and every byte the client sends next; the client's tunnel starts with every byte the server sends next if and only if the last chunk read in the handshake ends with the reply |
| Session.CoalescedBytesLost | src/proxy/connector.rs:366-372 | bytes that arrive in one chunk with the reply are lost, for every such chunk |
| Session.BufferedStream.ReadExact | src/proxy/connector.rs:222-222 | the refilling loop takes exactly the next bytes of all that arrives |
| Session.ReadGreeting | src/socks/protocol.rs:322-339 | consumes exactly the greeting or fails without a reply |
| Session.ReadCredentials | src/socks/auth.rs:16-48 | consumes exactly the credentials or fails without a reply |
| Session.ReadName | src/socks/protocol.rs:383-404 | consumes exactly name and port, or fails with the specified reply |
| Session.ReadAddress | src/socks/protocol.rs:376-382 | consumes exactly address and port or fails |
| Session.ReadConnectRequest | src/socks/protocol.rs:354-425 | consumes exactly the request, or fails with the reply for a bad command, address type or name |
| Session.Socks5Handshake | src/socks/handler.rs:271-520 | the sequence of reads and writes, the refusal of banned and limited peers included, is the specified server |
| Session.ConnectViaSocks5 | src/proxy/connector.rs:200-381 | the sequence of buffered reads and writes is the specified client, and the tunnel is what is still on the socket |
| Session.RequestConnect | src/proxy/connector.rs:297-366 | sends the request and takes exactly its reply |
| Terminal.Completions | src/shell/terminal.rs:274-310 | every completion extends the typed text, so no slice of it is out of range |
| Terminal.Common | src/shell/terminal.rs:362-378 | the longest prefix common to all strings |
| Terminal.CommonPrefix | src/shell/terminal.rs:362-378 | the loop over lengths computes that prefix |
| Terminal.StepKeeps | src/shell/terminal.rs:83-208 | every byte keeps cursor, history and index sound, and a completed line is UTF-8 without ASCII control characters |
| TerminalRuns.EveryInputSound | src/shell/terminal.rs:83-208 | the same for every byte string from the start: cursor in the line, at most 100 history entries, none blank, none equal to its neighbour |
| TerminalRuns.TypedIsEntered | src/shell/terminal.rs:122-137 | the line entered is the text typed, repaired only where it is not UTF-8, and history grows as specified |
| TerminalRuns.EraseUndoesKey | src/shell/terminal.rs:139-148 | backspace undoes a typed byte wherever the cursor is |
| TerminalRuns.ArrowsMove | src/shell/terminal.rs:99-116 | right and left move one byte up to the ends of the line and change nothing else |
| TerminalRuns.ArrowEcho | src/shell/terminal.rs:99-116 | and echo their own sequence exactly when they move |
| TerminalRuns.LeftRightRestores | src/shell/terminal.rs:99-116 | k lefts and k rights restore the whole state |
| TerminalRuns.TypedInside | src/shell/terminal.rs:99-204 | a byte typed after k lefts goes k places before the end |
| TerminalRuns.ControlKeys | src/shell/terminal.rs:121-207 | line, echo and completion of every control key, and the bell on a full line |
| TerminalRuns.OtherEscapes | src/shell/terminal.rs:85-118 | an escape with anything but an arrow behind it does nothing |
| TerminalRuns.LinesRemembered | src/shell/terminal.rs:122-137 | lines entered one after the other are the history in order, the last hundred of them |
| TerminalRuns.LineRecalled | src/shell/terminal.rs:233-249 | and k ups show the k-th from the end |
| TerminalRuns.LineNotRemembered | src/shell/terminal.rs:126-131 | a blank line or one like the last leaves the history as it was |
| TerminalRuns.BlankAscii | src/shell/terminal.rs:126-126 | an ASCII line is blank exactly if it is spaces and the bytes 9 to 13 |
| TerminalRuns.UnicodeSpaces | src/shell/terminal.rs:126-126 | beyond ASCII, the white space of up to three bytes by code point |
| TerminalRuns.PastLimitIff | src/shell/terminal.rs:197-348 | one byte takes a line past 4096 bytes if and only if an arrow key recalls a longer line or a tab adds more than there is room for |
| TerminalRuns.LimitHoldsIff | src/shell/terminal.rs:83-348 | over every input the limit holds throughout if and only if no byte comes where it overflows |
| TerminalRuns.LongEntryIff | src/shell/terminal.rs:122-137 | a history entry past the limit is made if and only if the repaired line is past it and not blank |
| TerminalRuns.TypingRespectsLimit | src/shell/terminal.rs:197-204 | in particular no line exceeds the limit on input without tabs and escape sequences |
| TerminalRuns.AsciiRespectsLimit | src/shell/terminal.rs:197-271 | in particular no line, saved line or history entry exceeds the limit on ASCII input without tabs |
| TerminalRuns.RecallExceedsLimit | src/shell/terminal.rs:233-249 | a full line of stray continuation bytes is recalled at three times the limit |
| TerminalRuns.TabExceedsLimit | src/shell/terminal.rs:316-326 | a full line that a tab completes grows past the limit |
| TerminalRuns.UpDownRestores | src/shell/terminal.rs:233-271 | from a state not navigating, k ups and k downs restore the whole state for every k, but for the cursor at the end |
| TerminalRuns.CompletionsIff | src/shell/terminal.rs:274-310 | the completions are exactly the commands the text starts, or the subcommands behind the three commands that have some |
| TerminalRuns.ListingReads | src/shell/terminal.rs:338-347 | several completions are listed in order with two spaces behind each |
| TerminalRuns.TabCompletes | src/shell/terminal.rs:274-348 | tab rings the bell without completions, makes the line read the one completion and a space, or exactly what all completions share, and lists them where that is nothing new |
| TerminalScreen.ReplaceShownIff | src/shell/terminal.rs:212-230 | the history keys clear the old line and show the new one if and only if every byte before the cursor is a character of its own and the line does not start with a stray continuation byte |
| TerminalScreen.PromptEaten | src/shell/terminal.rs:212-230 | a line of one two-byte character makes them put the new line over the last character of the prompt |
| TerminalScreen.InsertShownIff | src/shell/terminal.rs:197-204 | the echo of a typed byte keeps the screen right if and only if only spaces follow the cursor, or a continuation byte equals those it is put in front of |
| TerminalScreen.EraseShownIff | src/shell/terminal.rs:139-148 | that of backspace if and only if it takes a whole character and only spaces follow |
| TerminalScreen.KillShownIff | src/shell/terminal.rs:166-175 | that of Ctrl+U if and only if every byte before the cursor is a character of its own, or the first of one whose other bytes follow, and only spaces follow that |
| TerminalScreen.ExtendShownIff | src/shell/terminal.rs:316-335 | that of a completion if and only if no further character follows the cursor |
| TerminalStates.TerminalState.constructor | src/shell/terminal.rs:62-75 | starts in the fresh state |
| TerminalStates.TerminalState.ProcessByte | src/shell/terminal.rs:83-208 | updates the fields, echoes and completes lines as the state machine does |
| TerminalStates.TerminalState.HistoryPrev | src/shell/terminal.rs:233-249 | up arrow as specified |
| TerminalStates.TerminalState.HistoryNext | src/shell/terminal.rs:252-271 | down arrow as specified |
| TerminalStates.TerminalState.Replace | src/shell/terminal.rs:212-230 | replaces the line and builds the repainting echo |
| TerminalStates.TerminalState.HandleTabCompletion | src/shell/terminal.rs:274-348 | completes or lists as specified |
| Paths.ResolvePath | src/shell/filesystem.rs:147-184 | the component stack loop computes the specified resolution |
| Paths.ResolveCanonical | src/shell/filesystem.rs:147-184 | from a canonical directory every path resolves to a canonical one |
| Paths.CanonicalResolvesToItself | src/shell/filesystem.rs:147-184 | a canonical path resolves to itself from anywhere |
| Paths.ResolveIdempotent | src/shell/filesystem.rs:147-184 | resolving twice is resolving once |
| Paths.ResolveComposes | src/shell/filesystem.rs:147-184 | resolving p/q is resolving q from where p leads, from any directory |
| Paths.StepsLead | src/shell/filesystem.rs:169-177 | a name leads one level down, two dots one level up or stay at the root, a dot or nothing stays |
| Paths.DownAndUp | src/shell/filesystem.rs:147-184 | down and up again leads back |
| Paths.TildeExpands | src/shell/filesystem.rs:147-152 | a leading tilde stands for the home directory whatever follows it |
| Paths.CdStaysInDirs | src/shell/filesystem.rs:68-79 | no run of cd leaves the set of directories |
| Paths.HomeCanonicalIff | src/shell/filesystem.rs:17-57 | the home directory is canonical exactly when the parts of the user name are proper |
| Paths.CdStaysCanonical | src/shell/filesystem.rs:68-79 | with such a user name every run of cd stays canonical and cd ~ leads home |
| Paths.DirectoriesReached | src/shell/filesystem.rs:17-79 | from anywhere each of the eight directories is reached by its own name |
| Paths.VirtualFs.constructor | src/shell/filesystem.rs:17-57 | starts in the home directory, which exists |
| Paths.VirtualFs.ChangeDir | src/shell/filesystem.rs:68-79 | succeeds exactly when the resolved path is a directory, tells a file from a missing path, and stays in the directories |

## Left out

- The upstream-proxy branch of a connection skips the check of the resolved address by design, so the access equivalence is stated for direct connections.
- Timeouts, TCP connects, name lookup and the classification of dangerous addresses are inputs of the model.
- The races inside one rolling window and inside one lazy reset: calls on one window or user are sequential, each with one clock reading.
- The exact sliding total for the 60-second buckets of the hour windows off the whole minutes, which is not a property of the code; their readings appear in verdicts as they are.
- Removal of idle users, `reset_user`, `restore_user_usage`, changes of the quota configuration and the throttling delay of the quota tracker.
- The relay loop without a quota tracker, which only counts and throttles.
- The fallback of the month boundary for dates outside the range of the date library.
- The logging, metrics and audit side of every decision, and the non-verbose access checks, which are the policy parts of the verbose ones.
- TOTP, password hashing, the per-IP and per-user token buckets, IP reputation, GeoIP and bandwidth throttling, whose decisions are made by libraries or floating-point decay.
- `cat` and `ls` of the virtual file system, and the contents of its files.
- Characters that take two cells or none on screen, wrapping at the right margin, the listing of several completions, which starts new rows, and the escape sequences echoed for left, right and Ctrl+L.
- HTTP API handlers, SSH callbacks, configuration loading, server start-up and the command line, which would only add easy members.
