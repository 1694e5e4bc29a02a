# OSEye: verified models of the stateful core

OSEye is an endpoint agent (Go) with an analysis server (Python). This project
models the components whose guarantees span unbounded runs, and proves those
guarantees. Clock readings, I/O results and the choices Go makes by ranging over
a map are arguments or labels of the operations, so every theorem holds for all
of them.

| file | component |
|---|---|
| `CorrelatorSpec.dfy`, `Correlator.dfy` | the bounded event correlator: counters and sequence trackers, eviction, cleanup; one call on flat maps, and the two-level map that refines it |
| `Detections.dfy`, `Completeness.dfy`, `Engine.dfy` | the events behind every counting and every sequence detection, and the events that must set one off |
| `CleanupInvisible.dfy` | periodic cleanup changes no answer |
| `Rules.dfy`, `RuleCompiler.dfy`, `LocalEngine.dfy` | severities and truncation, compilation against a direct reading of the conditions, the evaluation loop with its budget |
| `RuleStore.dfy` | versioned rule sets in two files, rollback and crashes |
| `MergerSpec.dfy`, `MergeKeys.dfy`, `MergeOrder.dfy`, `Merger.dfy` | merging of overlapping events: which belong together, order-insensitivity and conservation |
| `Buffer.dfy`, `Delivery.dfy`, `Batcher.dfy` | the offline buffer and its two builds, sending and draining, batching with a timer |
| `Cascade.dfy`, `Dedup.dfy` | the cascade limiter behind the autonomy gates, action deduplication |
| `Journal.dfy` | the decision journal: hash chain, commit and rollback, verifier |
| `Anomaly.dfy` | per-entity anomaly models: LRU store, decaying-maximum scores, checkpoints |
| `Common.dfy` | shared vocabulary |

Each component has a specification module (pure functions for one step, a run as
a sequence of steps, theorems about runs) and an implementation module: classes
and loops in the form of the source, whose contracts tie every call to one step
of the specification. Where a class keeps a `trace`, that ghost field is the run
so far, and `Valid()` says that it executes the specification; the theorems
about runs therefore apply to whatever calls were made.

## What the code does not do

Places where the code falls short of what one might expect of it, or of its own
comments. The model follows the code; each place has its exact condition.

- `sendBatch` dequeues as many rows as it sent, oldest first. With a backlog it
  deletes rows that were never sent and keeps the batch that was:
  `Delivery.BacklogSurvivesIffEmpty`, `Delivery.BacklogLostToBatch`.
- At degradation level 1 a rule of severity "low" is skipped while one whose
  severity is none of the four names is evaluated. Severity order is respected at
  every level and cut-off exactly when the rules do not mix the two:
  `Rules.SeverityRespectedExactly`.
- The correlator's eviction takes an empty rule id for "none found". Its memory is
  bounded exactly when no rule has that id: `CorrelatorSpec.BoundedExactly`.
- A counting window opens with its first event and does not slide: a threshold met
  within the timeframe can go unnoticed (`Completeness.StraddlingBurstMissed`). A call
  fires exactly when its own window reaches the threshold (`Detections.FiresExactly`),
  and any 2k - 2 events are enough for a threshold of k >= 2 (`Completeness.BurstFires`).
- A half-matched sequence hides later attempts until its window is over:
  `Completeness.OpenAttemptHidesSteps`, exactly what `Completeness.StepsComplete`
  excludes.
- Reloading rules keeps the counters. A rule that replaces another of the same id
  inherits its count, and may fire on events that never matched it:
  `EngineSpec.ReloadCarriesCount`, exactly when a count is carried over:
  `EngineSpec.ReloadedDetectionsExactly`.
- Overlapping decisions can break the journal chain or leave the last hash on a
  decision that was never stored. Two of them verify exactly when the first to commit
  is stored, or both fail and the second is rolled back first
  (`JournalSpec.OverlapVerifiesExactly`); any number, exactly when every rollback is of
  the latest live commit (`JournalSpec.InterleavingsVerifyExactly`). Fields outside the
  hash can be edited unnoticed (`JournalSpec.EditReported`). A seed that is not 64 hex
  digits makes the first rollback fail (`JournalSpec.BadSeedRefused`).
- The rule store only logs failed file writes. Two failed writes in a row put a newer
  set into the previous file (`RuleStoreSpec.FailedWritesBreakOrder`); a torn current
  file takes the guard against downgrades with it (`RuleStoreSpec.TornWriteDowngrades`).
  The exact conditions are `RuleStoreSpec.OrderedExactly` and
  `RuleStoreSpec.VersionsKeptExactly`.
- The order in which events arrive matters to a merge exactly when the first netlink
  event of a key carries a source address of its own:
  `MergeOrder.ArrivalOrderIrrelevant`.
- A comment in `dedup.go` (line 53) promises fewer than `maxEntries` entries; a map of
  `maxEntries` is reached (`DedupSpec.FullMapReached`), by a new key on top of one entry
  fewer (`DedupSpec.FillsExactly`).
- Having reached its cap, the buffer keeps one row fewer than the cap:
  `BufferSpec.CappedIsSuffix`.

## Model

| member | source | states |
|---|---|---|
| CorrelatorImpl.Correlator.IncrementCounter | agent/internal/localrules/correlator.go:47-82 | the call is one legal Increment step of the run, on the two-level map as on the flat one, and returns that step's answer |
| CorrelatorImpl.Correlator.AdvanceSequence | agent/internal/localrules/correlator.go:86-141 | the call is one legal Advance step of the run (a later step without a tracker changes nothing) and returns that step's answer |
| CorrelatorImpl.Correlator.StepTracker | agent/internal/localrules/correlator.go:116-140 | the branches of a tracker step, early returns included, are a window refresh followed by one in-order step |
| CorrelatorImpl.Correlator.ResetCounter | agent/internal/localrules/correlator.go:144-150 | removes exactly one counter |
| CorrelatorImpl.Correlator.Cleanup | agent/internal/localrules/correlator.go:153-180 | keeps exactly the entries used within twice their window, and no row without entries |
| NestedMaps.Clean | agent/internal/localrules/correlator.go:159-179 | deleting stale entries row by row leaves the live part of the flat map, and no emptied row |
| NestedMaps.TotalEntries | agent/internal/localrules/correlator.go:183-189 | the sum of the row sizes is the number of entries |
| NestedMaps.FindOldest | agent/internal/localrules/correlator.go:195-205 | ends as some order of the range does: entries under the empty rule id are never chosen, and an older one makes the scan start over |
| CorrelatorImpl.Correlator.EvictCountersIfNeeded | agent/internal/localrules/correlator.go:191-209 | below the cap nothing goes; at the cap the entry that the scan ends with, if any, and nothing else |
| CorrelatorImpl.Correlator.EvictSequencesIfNeeded | agent/internal/localrules/correlator.go:220-239 | the same for trackers |
| CorrelatorSpec.VictimIsOldest | agent/internal/localrules/correlator.go:191-239 | without entries under the empty rule id, a full map loses a least recently used entry |
| CorrelatorSpec.BoundedMemory | agent/internal/localrules/correlator.go:191-239 | in every run without the empty rule id each map holds at most max(1, maxGroups) entries |
| CorrelatorSpec.BoundedExactly | agent/internal/localrules/correlator.go:195-208 | every run over a set of rule ids stays within that bound if and only if the empty id is not among them |
| CorrelatorSpec.CleanedExactly | agent/internal/localrules/correlator.go:159-179 | a cleanup keeps an entry, unchanged, exactly until it is unused for more than twice its window |
| Detections.CountedAlways | agent/internal/localrules/correlator.go:47-82 | in every run a counter's count and firstSeen describe a trail of that many earlier calls of its rule and group since the last reset |
| Detections.CountingDetectionWitnessed | agent/internal/localrules/correlator.go:47-82 | a firing stands on calls for its rule and group, ending with the firing one, within its timeframe, through evictions, resets and cleanups; on exactly max(1, threshold) of them if and only if no open window already held that many, which takes a threshold lowered in between |
| Detections.FiresExactly | agent/internal/localrules/correlator.go:69-81 | a call fires exactly when the calls counted in its window reach its threshold |
| Completeness.BurstFires | agent/internal/localrules/correlator.go:47-82 | while its counter is kept, a rule of threshold k fires on any max(1, 2k - 2) counted events within its timeframe |
| Completeness.StraddlingBurstMissed | agent/internal/localrules/correlator.go:69-77 | a run in which the threshold is met within the timeframe, across two windows, and nothing fires |
| Detections.CountedEventsDistinct | agent/internal/localrules/correlator.go:47-82 | those calls are for as many different events, in order, if no event is counted twice |
| Detections.CarriedExactly | agent/internal/localrules/correlator.go:47-82 | a count rests on calls from before some call if and only if its entry was there and was neither lost nor started over since |
| Detections.FiringsDisjoint | agent/internal/localrules/correlator.go:69-81 | no call is counted towards two firings |
| Detections.TrackedAlways | agent/internal/localrules/correlator.go:116-141 | between calls a tracker has one timestamp per matched step, fewer than the total of the call for the last of them, each from a call for that step, in order |
| Detections.SequenceDetectionWitnessed | agent/internal/localrules/correlator.go:86-141 | a completion has one call for each step 0..k-1, in order, within the timeframe of the first |
| Completeness.StepsComplete | agent/internal/localrules/correlator.go:86-141 | while its tracker is kept and no earlier attempt is open, steps offered in order within the timeframe complete the sequence |
| Completeness.OpenAttemptHidesSteps | agent/internal/localrules/correlator.go:116-127 | a run in which an earlier attempt still open hides two steps within the timeframe |
| Detections.CarriedStepsExactly | agent/internal/localrules/correlator.go:86-141 | a completion rests on calls from before some call if and only if matched steps were there and were kept since |
| Detections.SequenceEventsOrdered | agent/internal/localrules/engine.go:278-317 | the events behind the steps come at nondecreasing positions, strictly increasing if no event matches two consecutive steps |
| Detections.CompletionsDisjoint | agent/internal/localrules/correlator.go:134-139 | no call is a step of two completions |
| CleanupInvisible.CleanupIsInvisible | agent/internal/localrules/correlator.go:47-180 | of two runs with the same calls, one with cleanups anywhere, every call gets the same answer, given a nondecreasing clock, one window per rule and a map that never fills |
| EngineSpec.CountingDetectionsAreReal | agent/internal/localrules/engine.go:234-266 | if no other rule had its id since the first of them, a counting detection stands on exactly max(1, count_threshold) different events, in order, each matching its rule and group, within the timeframe |
| EngineSpec.CountingDetectionsStand | agent/internal/localrules/engine.go:234-266 | through any reloads and repeated ids, it stands on evaluations by rules of its id, each for an event that matches the rule as it was then, on exactly max(1, count_threshold) if and only if no open window already held as many |
| EngineSpec.ReloadedDetectionsExactly | agent/internal/localrules/engine.go:405-434 | across a reload that gives the id its present rule, a detection stands on that rule alone if and only if no count was carried over from before |
| EngineSpec.ReloadCarriesCount | agent/internal/localrules/engine.go:97-99 | a run in which a reloaded rule fires on its first matching event, on top of the old rule's count |
| EngineSpec.SequenceDetectionsAreReal | agent/internal/localrules/engine.go:268-319 | if no other rule had its id since the first of them, behind a sequence detection is, for each step of its rule in order, an event that matches the step and shares the group, within the timeframe; at nondecreasing events, and strictly increasing ones if no event matches two consecutive steps |
| EngineSpec.SequenceDetectionsStand | agent/internal/localrules/engine.go:268-319 | through any reloads and repeated ids, each step was matched, in order, as a rule of that id had it then |
| EngineSpec.ResetsAtOnceIsEnough | agent/internal/localrules/engine.go:255-256 | resetting right after a firing means a counter never counts again before its reset |
| EngineSpec.GroupsApart | agent/internal/localrules/engine.go:250-253 | events fall in one group exactly if they agree in the grouping field, with "_default" for a missing one |
| EngineSpec.CorrelationMatchesExactly | agent/internal/localrules/engine.go:234-248 | a counting rule overlooks exactly the events of another type or with another text in a condition field |
| EngineSpec.StepMatchesExactly | agent/internal/localrules/engine.go:278-305 | a step overlooks exactly the events of another type, with another text, or outside the referenced list; other expected values never matter |
| Rules.SeverityRespectedExactly | agent/internal/localrules/engine.go:103-134 | over a severity-sorted list, no left-out rule is strictly more severe than an evaluated one, at every degradation level and budget cut-off, if and only if the rules do not mix "low" with unnamed severities |
| Rules.AllowedDownward | agent/internal/localrules/engine.go:388-403 | without that mix, a rule that degradation lets through is at least as severe as one it does not |
| Rules.DegradationLevels | agent/internal/localrules/engine.go:388-403 | the severities that each degradation level still evaluates |
| Rules.DegradationMonotone | agent/internal/localrules/engine.go:388-403 | the more degraded, the less is evaluated |
| Rules.PolicyActs | agent/internal/localrules/rule.go:115-128 | the severities that each autonomy policy lets act; an unknown policy lets none |
| Rules.SelectRules | agent/internal/localrules/engine.go:415-427 | keeps min(n, maxRules) rules in severity order, a sub-multiset of the set, and drops no rule strictly more severe than a kept one |
| Rules.SortBySeverity | agent/internal/localrules/engine.go:425-427 | a permutation in severity order |
| RuleCompiler.RegexCache.Get | agent/internal/localrules/rule.go:170-192 | returns what a fresh compilation would, with at most max(1, maxSize) entries whatever is evicted; bad patterns are never cached |
| RuleCompiler.BuildInSet | agent/internal/localrules/rule.go:229-258 | a set holds exactly the strings of the list; a reference list and any other value give none |
| RuleCompiler.CompileRule | agent/internal/localrules/rule.go:195-225 | the compiled conditions and patterns are determined by the raw rule, whatever the cache has seen |
| RuleCompiler.CompileRules | agent/internal/localrules/rule.go:195-225 | every rule in order |
| RuleCompiler.MatchIn | agent/internal/localrules/engine.go:349-373 | the scan finds a value exactly when it occurs in the list or the referenced baseline |
| RuleCompiler.NumericOrder | agent/internal/localrules/engine.go:199-214 | on two numbers gt, lt, gte and lte match exactly when the field's number is greater, less, not less, not greater than the bound |
| RuleCompiler.NoNumberNoMatch | agent/internal/localrules/engine.go:321-347 | if a side does not parse no ordering operator matches, and no unknown operator ever does |
| RuleCompiler.BoundMeans | agent/internal/localrules/engine.go:321-347 | which condition values are bounds, and which bound they give |
| RuleCompiler.TextOperators | agent/internal/localrules/engine.go:169-186 | eq, neq, contains and regex match exactly the equal, unequal, containing and matching texts, and only against text values |
| RuleCompiler.ListOperators | agent/internal/localrules/engine.go:187-198 | in and not_in match exactly the members and non-members of a list or of a reference as it is now, unknown references included |
| RuleCompiler.ScoreAdds | agent/internal/localrules/engine.go:160-222 | scores add up over the conditions |
| RuleCompiler.NumericRuleFires | agent/internal/localrules/engine.go:199-224 | a rule of one ordering condition fires exactly on present fields beyond its bound |
| RuleCompiler.MatchCondition | agent/internal/localrules/engine.go:169-217 | set lookup, pattern table and extracted text decide as the raw condition does, for every operator and value shape |
| RuleCompiler.EvaluateSimple | agent/internal/localrules/engine.go:160-232 | the compiled score equals that of a direct interpreter of the raw conditions, and fires exactly at the threshold; a rule of one condition fires exactly when its field is present and the condition holds |
| LocalEngine.Engine.Recompile | agent/internal/localrules/engine.go:405-434 | the compiled rules are the most severe maxRules of the current set, in severity order, each compiled from its raw rule |
| LocalEngine.Engine.SetProfileRefs | agent/internal/localrules/engine.go:89-94 | new references take effect and no rule is lost or invented |
| LocalEngine.Engine.SetDegradeLevel | agent/internal/localrules/engine.go:78-86 | levels 0..4 are taken as they are, others clamped |
| LocalEngine.Engine.EvaluateCorrelation | agent/internal/localrules/engine.go:234-266 | a non-matching event touches nothing; a matching one makes one counting call, and a firing one is followed by the reset and yields a detection |
| LocalEngine.Engine.MatchStep | agent/internal/localrules/engine.go:279-305 | event type, strings and references all match; other expected values are ignored |
| LocalEngine.Engine.EvaluateSequence | agent/internal/localrules/engine.go:268-319 | offers every matching step in ascending order, several for one event if they match, and stops at the first completion, which is the only detection |
| LocalEngine.Engine.EvaluateRule | agent/internal/localrules/engine.go:141-158 | one rule does what its kind says |
| LocalEngine.Engine.Evaluate | agent/internal/localrules/engine.go:103-134 | the rules before the budget cut-off each have their effect in order, skipped severities have none, the detections are theirs, and severity is respected when the rules do not mix "low" with unnamed ones |
| LocalEngine.FoundInOrder | agent/internal/localrules/engine.go:114-133 | the detections are those of the rules, in their order |
| LocalEngine.Engine.CleanupCorrelator | agent/internal/localrules/correlator.go:153-180 | cleanup keeps the engine's log of calls |
| RuleStoreSpec.AlwaysConsistent | agent/internal/localrules/store.go:34-114 | over updates, rollbacks, restarts and crashes between writes, from an empty directory, previous.version <= current.version in memory and on disk, and memory agrees with disk |
| RuleStoreSpec.StrictlyNewerBetweenRollbacks | agent/internal/localrules/store.go:58-93 | with atomic writes, the current sets between rollbacks have strictly increasing versions |
| RuleStoreSpec.UpdateThenRollback | agent/internal/localrules/store.go:96-114 | an accepted update followed by a rollback restores exactly the earlier set, in memory and on disk |
| RuleStoreSpec.CrashedUpdateIsOldOrNew | agent/internal/localrules/store.go:76-92 | a crash inside an update reloads the old or the new set if and only if it does not tear the file of an existing current set |
| RuleStoreSpec.CrashedRollbackIsOldOrNew | agent/internal/localrules/store.go:96-114 | a crash inside a rollback reloads one of the two sets if and only if the write is not torn |
| RuleStoreSpec.SafeExactly | agent/internal/localrules/store.go:76-109 | whatever becomes of its file writes, a call keeps previous.version <= current.version in memory and on disk if and only if its write outcomes are safe: the new set is written, or what is shifted to the previous file is no newer than the current file |
| RuleStoreSpec.OrderedExactly | agent/internal/localrules/store.go:34-178 | over any run from an empty directory, with failed and torn writes and crashes, versions stay ordered at every moment if and only if every call is safe |
| RuleStoreSpec.FailedWritesBreakOrder | agent/internal/localrules/store.go:171-178 | two updates whose current-file writes fail leave a previous set newer than the current one on disk |
| RuleStoreSpec.VersionKeptExactly | agent/internal/localrules/store.go:71-92 | outside rollbacks the current version falls, or is lost, if and only if the call goes back to a current file that is torn, missing or older than the set in memory |
| RuleStoreSpec.VersionsKeptExactly | agent/internal/localrules/store.go:58-93 | the same over every stretch of a run without rollbacks |
| RuleStoreSpec.TornWriteDowngrades | agent/internal/localrules/store.go:71-92 | a run in which, after a torn current file, a set older than all before is accepted |
| RuleStoreImpl.Store.constructor | agent/internal/localrules/store.go:34-54 | opening reads both files back |
| RuleStoreImpl.Store.UpdateRules | agent/internal/localrules/store.go:58-93 | accepts exactly a parsed, verified, strictly newer set, and moves the current set to previous, for every outcome of the two writes; a refused update changes nothing |
| RuleStoreImpl.Store.RollbackRules | agent/internal/localrules/store.go:96-114 | reverts to the previous set once, writing only the current file |
| MergerSpec.PrimaryIsEbpf | agent/internal/merger/merger.go:205-268 | among mergeable events exactly the eBPF ones are primary |
| MergeKeys.KeyOfSubject | agent/internal/merger/merger.go:205-268 | an event about a connection, process start or file gets the key of that activity and its role, read off the payload: eBPF connect by dst_ip and dst_port, new netlink connections by remote_addr, eBPF execve and openat by pid and filename, auditd execve by pid and exe or comm |
| MergeKeys.SameKeyExactly | agent/internal/merger/merger.go:205-278 | two such events get one key if and only if they are about one activity, where hash and number format tell their activities apart |
| MergeKeys.PassesThroughExactly | agent/internal/merger/merger.go:102-120 | the events about no such activity, and only they, are emitted at once and leave the groups alone |
| MergeKeys.ConnectionMerges | agent/internal/merger/merger.go:122-191 | a connection reported by one eBPF event and any netlink events without a src_ip of their own (MergedResult covers those with one), in any order and among anything else, ends as the eBPF event with src_ip and src_port of the last local_addr that names a host |
| MergeKeys.ConnectionUnchanged | agent/internal/merger/merger.go:122-191 | if none names a host, the eBPF event stays as it came |
| MergeKeys.RunReportedTwice | agent/internal/merger/merger.go:153-188 | an eBPF and an auditd event about one program start make one group with the eBPF event, in either order |
| MergeKeys.SecondaryJoins | agent/internal/merger/merger.go:138-156 | a secondary event neither emits anything nor changes the deadline, source or time of its group |
| MergeKeys.PrimaryJoins | agent/internal/merger/merger.go:158-190 | a primary event starts the wait anew, and sends off an equally important one |
| MergeOrder.MergedResult | agent/internal/merger/merger.go:122-191 | one eBPF connect and any netlink events of its key, interleaved with anything, end as the eBPF event with src_ip and src_port of the last local address that parses, unchanged if none does; except that a group opened by a netlink event with a src_ip of its own keeps that one if no later local address parses |
| MergeOrder.ArrivalOrderIrrelevant | agent/internal/merger/merger.go:122-191 | two interleavings of the same primary and the same netlink sequence give the same merged event, if and only if it is not the case that the primary opens the group in just one of them and the first netlink event carries a lasting, different src_ip of its own |
| MergeOrder.PromotedTakesAddr | agent/internal/merger/merger.go:158-180 | promotion hands over exactly the address that the waiting netlink group had collected |
| MergerImpl.IngestConserves | agent/internal/merger/merger.go:102-191 | after every ingested event each event so far is exactly one of pending, emitted, absorbed, superseded or dropped, outputs and waiting groups correspond one to one to events of their source and timestamp, and no mergeable eBPF event is absorbed or superseded |
| MergerImpl.FlushConserves | agent/internal/merger/merger.go:325-333 | a flushed primary is emitted, or dropped when the channel is full, and nothing else changes |
| MergerImpl.EventMerger.IngestEvent | agent/internal/merger/merger.go:102-191 | one ingest step, with the books balanced and final fates kept |
| MergerImpl.EventMerger.FlushGroup | agent/internal/merger/merger.go:325-333 | one flush step, with its fate booked |
| MergerImpl.EventMerger.FlushExpired | agent/internal/merger/merger.go:281-300 | exactly the groups past their deadline leave, all emitted |
| MergerImpl.EventMerger.FlushAll | agent/internal/merger/merger.go:304-322 | afterwards no group and no pending event is left, each emitted or dropped for want of room |
| BufferSpec.DeletesAgree | agent/internal/buffer/buffer_cgo.go:112-139 | deleting the range up to the n-th id and deleting the first n ids by list leave the same table |
| BufferSpec.CappedIsSuffix | agent/internal/buffer/buffer.go:88-95 | eviction keeps the newest rows, one fewer than the cap once it is reached |
| BufferSpec.IdsNeverReused | agent/internal/buffer/buffer.go:62-201 | over every run of pushes, pops and acks of both builds, the ids handed out strictly increase, and the table holds the latest of all rows ever inserted, in order |
| BufferSpec.CappedAlways | agent/internal/buffer/buffer.go:88-95 | with the cap enforced on every push the table stays below it |
| BufferImpl.Buffer.Push | agent/internal/buffer/buffer.go:62-96 | appends the batch under fresh increasing ids and then drops only the oldest; a failed transaction or an empty batch changes nothing |
| BufferImpl.Buffer.PushUncapped | agent/internal/buffer/buffer_cgo.go:57-85 | appends without a cap under fresh ids; a failed transaction uses up none |
| BufferImpl.Buffer.Pop | agent/internal/buffer/buffer.go:100-146 | returns and removes exactly the oldest min(n, len) payloads, in order |
| BufferImpl.Buffer.PopById | agent/internal/buffer/buffer_cgo.go:88-139 | the same by a list of ids |
| BufferImpl.Buffer.AckUntil | agent/internal/buffer/buffer.go:196-201 | removes the rows up to an id, or nothing on failure |
| Delivery.SendBatch | agent/cmd/oseye-agent/main_linux.go:416-474 | the table after push, send and dequeue, for every pattern of failures, and what was sent |
| Delivery.BacklogSurvivesIffEmpty | agent/cmd/oseye-agent/main_linux.go:452-473 | a successful send leaves the backlog as it was if and only if it was empty |
| Delivery.BacklogLostToBatch | agent/cmd/oseye-agent/main_linux.go:466-473 | with a backlog the oldest unsent rows go and the sent batch stays |
| Delivery.EmptyBacklogExact | agent/cmd/oseye-agent/main_linux.go:452-473 | over an empty backlog, nothing is left after success and exactly the batch after failure |
| Delivery.UnsentIsKept | agent/cmd/oseye-agent/main_linux.go:452-466 | a batch that is not sent is kept behind the backlog, only the oldest rows giving way to the cap; if the push fails the table stays as it was |
| Delivery.EncodedInOrder | agent/cmd/oseye-agent/main_linux.go:428-446 | events are serialised one by one, in order, and one that cannot be is left out alone |
| Delivery.DrainBuffer | agent/cmd/oseye-agent/main_linux.go:485-532 | for any timeouts, read, send and ack failures and undecodable rows: what is sent is the decodable part of a prefix in id order, what is deleted is a prefix of that prefix (all of it when every ack succeeds), a failed send keeps its page and all later rows, and the loop ends |
| Delivery.SentOnce | agent/cmd/oseye-agent/main_linux.go:485-532 | the events sent stand one to one with the decodable rows dealt with; a row not sent does not decode |
| Batcher.NothingLostOrReordered | agent/internal/transport/batcher.go:44-110 | in every run the batches handed over followed by the pending batch are the events received, in order; batches hold 1..maxSize events; the timer is armed exactly while a batch is pending, and no tick outlives its batch |
| Batcher.ShutdownHandsOverAll | agent/internal/transport/batcher.go:79-91 | cancel or close hands over everything received |
| Batcher.ShutdownEndsRun | agent/internal/transport/batcher.go:79-91 | the loop reacts to nothing after cancel or close |
| Batcher.AllReceivedAreHandedOver | agent/internal/transport/batcher.go:44-110 | any number of events can reach the loop before a cancel or close, and then all of them are handed over |
| Batcher.Run | agent/internal/transport/batcher.go:44-110 | the loop hands over exactly what the step machine does, to the end of the signals, and reports an error exactly for cancellation |
| Batcher.NewConfig | agent/internal/transport/batcher.go:23-34 | the size is clamped to 1..10000 and kept when within, and the timeout is kept |
| DedupSpec.BoundedMemory | agent/internal/responder/dedup.go:38-94 | in every run the map holds at most 1000 entries |
| DedupSpec.FillsExactly | agent/internal/responder/dedup.go:50-63 | an admitted call leaves 1000 entries if and only if it adds a key to 999 |
| DedupSpec.FullMapReached | agent/internal/responder/dedup.go:50-63 | some run does reach 1000 entries |
| DedupSpec.RepeatOnlyWhenCrowded | agent/internal/responder/dedup.go:38-94 | a key admitted twice less than a TTL apart means that at least 500 other keys were admitted before the second call at times no earlier than the first |
| DedupSpec.AllowedExactly | agent/internal/responder/dedup.go:38-64 | a call is allowed whenever every earlier allowed call of its key is at least a TTL old, first calls included; and in spite of a younger one only when 500 other keys were admitted since |
| DedupSpec.CrowdIsBetween | agent/internal/responder/dedup.go:38-64 | on a strictly increasing clock, a key admitted twice less than a TTL apart means that 500 other keys were admitted strictly between the two calls |
| DedupSpec.KeysDistinct | agent/internal/responder/dedup.go:42 | different actions have different keys when command types contain no bar |
| DedupImpl.Deduplicator.Allow | agent/internal/responder/dedup.go:38-64 | one step of the run, recorded with its expiry; allowed whenever no earlier allowed call of the action is less than a TTL old |
| DedupImpl.Deduplicator.Purge | agent/internal/responder/dedup.go:67-73 | removes exactly the expired entries |
| DedupImpl.Deduplicator.EvictOldest | agent/internal/responder/dedup.go:78-94 | keeps exactly 500 entries, none expiring before one that goes |
| CascadeSpec.WindowBound | agent/internal/autonomy/controller.go:352-386 | in every run each tracking window records at most max(1, threshold) distinct targets |
| CascadeSpec.NothingUntilExpiry | agent/internal/autonomy/controller.go:389-401 | once a window has its last target every check is refused, and nothing recorded, until it expires |
| CascadeSpec.RefusedExactly | agent/internal/autonomy/controller.go:389-401 | a check is refused if and only if a window that is not over yet has recorded its last target |
| CascadeSpec.RecordedExactly | agent/internal/autonomy/controller.go:352-375 | a recording counts towards its window, or opens one, and empties it and marks the rollback at the threshold |
| CascadeSpec.WindowAtMeans | agent/internal/autonomy/controller.go:356-361 | a recording falls in the window of the one before, unless that is over: then it opens its own |
| CascadeSpec.SlidingBound | agent/internal/autonomy/controller.go:352-420 | no interval as long as the rollback window has more than twice that many distinct targets |
| Controller.Controller.CheckCascade | agent/internal/autonomy/controller.go:389-401 | the check is one step of the run, and on a nondecreasing clock blocks if and only if a window that is not over yet has recorded its last target |
| Controller.Controller.TrackAction | agent/internal/autonomy/controller.go:352-386 | the recording is one step of the run, and sets off a rule rollback exactly when it empties the targets |
| Controller.TargetsApart | agent/internal/autonomy/controller.go:363 | detections count as one target exactly when response and group agree, for response names without a colon |
| Controller.Controller.ResetRollbackWindow | agent/internal/autonomy/controller.go:411-420 | the periodic reset is one step of the run, even while a response is under way |
| Controller.Controller.Handle | agent/internal/autonomy/controller.go:129-179 | policy, cascade and kill-switch gates in this order decide the action; only an executed response is recorded |
| Controller.GateMeans | agent/internal/autonomy/controller.go:129-179 | a response is executed exactly when the policy lets its severity act, no window still open has recorded its last target, the kill switch is off and it succeeds; the first of these to fail names the action, and only executed responses are recorded |
| Controller.Controller.ProcessDetections | agent/internal/autonomy/controller.go:129-180 | the detections of an event pass the gates in order, and a kill switch ends the event |
| JournalSpec.SerialisedRunsVerify | server/oseye/decision/engine.py:280-310 | over any serialised cycles from a well-formed seed, the last hash is that of the last stored decision, no matching rollback is refused, and the stored chain verifies |
| JournalSpec.MatchingRollback | server/oseye/decision/journal.py:65-80 | the rollback matching a commit is refused if and only if the previous hash is malformed, and restores it |
| JournalSpec.RollbackExactly | server/oseye/decision/journal.py:65-80 | over any run of commits and rollbacks, a rollback is accepted if and only if it is to the genesis hash or to one of the last 200 bases, well-formed |
| JournalSpec.HashesAre | server/oseye/decision/journal.py:63 | a hash is 64 of the sixteen lower-case hexadecimal digits |
| JournalSpec.BadSeedRefused | server/oseye/decision/journal.py:73-74 | with a malformed seed the first failed cycle cannot be rolled back |
| JournalSpec.BrokenExactly | server/oseye/decision/journal.py:82-110 | the verifier reports exactly the entries with a wrong link or a wrong hash, in ascending order |
| JournalSpec.VerifiedIffIntact | server/oseye/decision/journal.py:82-110 | no report if and only if the chain is intact |
| JournalSpec.EditReported | server/oseye/decision/journal.py:99-133 | a content-only edit of one entry of an intact chain is reported at that entry alone, if and only if it touches a covered field |
| JournalSpec.LastHashCommits | server/oseye/decision/journal.py:45-61 | two intact chains with the same seed and last hash have the same covered contents and hashes |
| JournalSpec.OverlapVerifiesExactly | server/oseye/decision/engine.py:282-360 | two overlapping decisions leave a verifiable journal if and only if the first to commit is stored, or both fail and the second to commit is rolled back first |
| JournalSpec.InChainExactly | server/oseye/decision/journal.py:45-80 | one commit, store or rollback keeps the live decisions in a chain if and only if it does not undo any but the latest of them |
| JournalSpec.InterleavingsVerifyExactly | server/oseye/decision/journal.py:45-110 | however commits, stores and rollbacks interleave, the live decisions form a chain at every moment if and only if every rollback is of the latest live commit, within the remembered bases; and then, once all are stored, the stored chain verifies |
| JournalSpec.MoveMeans | server/oseye/decision/journal.py:45-80 | a decision is in flight from its commit, on the last hash, until it is stored or undone, and no other changes |
| JournalImpl.DecisionJournal.Commit | server/oseye/decision/journal.py:45-61 | one commit step and its two hashes |
| JournalImpl.DecisionJournal.Rollback | server/oseye/decision/journal.py:65-80 | accepts exactly a well-formed hash that is the genesis hash or one of the last 200 bases, and otherwise changes nothing |
| JournalImpl.DecisionJournal.DecideAndPersist | server/oseye/decision/engine.py:280-310 | the leader's commit, construction and rollback, with the caller's rollback of an unstored decision, is one cycle |
| JournalImpl.Verify | server/oseye/decision/journal.py:82-110 | the loop reports what the chain's definition of broken entries says |
| LruSpec.NewestMeans | server/oseye/ml_engine/anomaly.py:99-118 | a key is among the n newest if and only if fewer than n other keys followed its last touch |
| LruSpec.TouchKeepsNewest | server/oseye/ml_engine/anomaly.py:106-118 | one touch of a list of the newest keys gives the list of the newest keys |
| AnomalySpec.TrueLru | server/oseye/ml_engine/anomaly.py:99-118 | after any mix of calls the stored keys are, in order, the last maxsize distinct keys touched, where a lookup of an absent key touches nothing |
| AnomalySpec.ModelIsItsLife | server/oseye/ml_engine/anomaly.py:181-213 | a stored model is the fresh one taught the samples its key learned since it last entered the store, whatever happened to other keys and however often it was scored |
| AnomalySpec.PeakIsDecayedMaximum | server/oseye/ml_engine/anomaly.py:208-215 | the decaying maximum is the largest raw score past the cold start, each decayed by its age |
| AnomalySpec.LearnedScore | server/oseye/ml_engine/anomaly.py:198-218 | in every run the score of a learned sample is its raw score relative to that maximum, 0 in the cold start, and 100 if and only if it is positive and no earlier decayed score is larger |
| AnomalySpec.ReadScore | server/oseye/ml_engine/anomaly.py:220-235 | a lookup scores 0 for an absent key, in the cold start and without a positive peak; else the raw score relative to the largest decayed one of the key's life, and 100 if and only if it is not below it |
| AnomalySpec.FadedIsPower | server/oseye/ml_engine/anomaly.py:83-89 | n steps of decay multiply by (1 - 0.001) to the n |
| AnomalySpec.KeysApart | server/oseye/ml_engine/anomaly.py:203 | every host and category has a model of its own, for category names without a colon |
| AnomalySpec.ScoresInRange | server/oseye/ml_engine/anomaly.py:198-235 | every score of either call lies in [0, 100] |
| AnomalySpec.OutlierFades | server/oseye/ml_engine/anomaly.py:83-89 | a peak outlasts later raw scores of at most r exactly as long as its own decayed value exceeds r |
| AnomalySpec.LoadRestores | server/oseye/ml_engine/anomaly.py:252-309 | refilling a store from its saved items gives the same keys in the same order with the same states |
| AnomalyImpl.LruStore.Get | server/oseye/ml_engine/anomaly.py:106-110 | a hit is a touch, a miss changes nothing |
| AnomalyImpl.LruStore.Put | server/oseye/ml_engine/anomaly.py:112-118 | a put is a touch: an old key moves to the end, a new one may push out the oldest |
| AnomalyImpl.EntityAnomalyDetector.GetOrCreate | server/oseye/ml_engine/anomaly.py:181-196 | the stored model or a fresh one, touched either way |
| AnomalyImpl.EntityAnomalyDetector.LearnAndScore | server/oseye/ml_engine/anomaly.py:198-218 | one learning step of the run and its score |
| AnomalyImpl.EntityAnomalyDetector.ScoreOnly | server/oseye/ml_engine/anomaly.py:220-235 | one scoring step of the run, with the score that ReadScore explains; no model changes |
| AnomalyImpl.EntityAnomalyDetector.Save | server/oseye/ml_engine/anomaly.py:252-263 | the payload lists the states, oldest first |
| AnomalyImpl.EntityAnomalyDetector.Load | server/oseye/ml_engine/anomaly.py:282-309 | a fresh detector refilled from the payload |

## Left out

- Map entries that the source holds by pointer (counters, trackers, merge groups, model states) are values written back into their map; aliasing of such an entry outside its map is not modelled.
- Locks and goroutines: calls are atomic. The controller's cleanup tick may fall between a check and its recording; the rule rollback it starts in the background is a returned flag. Two events are not processed at once.
- A negative maxRules, which makes the slice expression in recompile fail, is not modelled.
- Durations are unbounded integers in nanoseconds; a window that overflows 64 bits is not modelled.
- Dotted field lookup and number formatting of events: an event is a function from field names to text. Regular expressions, float parsing, address splitting and the key fingerprint are parameters; the priority comparison of the sort is modelled by an insertion sort, since only sortedness and the multiset matter.
- JSON payloads are decoded values or opaque bytes; re-encoding an enriched payload is taken not to fail.
- MergeKeys.ConnectionMerges: assumes that no other activity in the run collides with the connection in the truncated hash.
- Auditd events have keys of other kinds than netlink and eBPF connect events; the merge theorems take a key whose events are one eBPF event and netlink events.
- Whether the output channel has room at a non-blocking send is an input of each merge or flush; blocking sends wait and succeed.
- SQLite is a sequence of rows in id order; each statement or transaction succeeds or changes nothing. Replay is the query it issues.
- The hash chain and cursor file kept beside sendBatch, and the retry and rate limiting inside the gRPC client.
- Batcher.Run: the error result of sendFn is only logged and has no effect on the loop. Go's timer is its channel with at most one unread tick.
- The first lines of ProcessEvent (own pid, kill switch before evaluation), the executors behind a response, and the decision queue.
- Deduplication keys are command type and target joined by a bar; command types that contain a bar can collide.
- The follower branch of decide, scoring, policy overrides, risk matrix, explanation text and leader election.
- JournalSpec.EditReported: assumes no hash or encoding collision among the inputs that occur, since no function to 64 digits is injective on all inputs.
- JournalSpec.OverlapVerifiesExactly: assumes that the hash of the first decision is not the hash it was computed from; JournalSpec.InterleavingsVerifyExactly assumes the same of every decision rolled back.
- JournalSpec.LastHashCommits: the same assumption; for chains of different lengths also that the seed is not itself an entry's hash.
- A decision read back from the database is taken to have the fields it was hashed with, and the stored chain to be read in commit order.
- Half-space trees are a parameter that gives a raw score and a successor; scores are exact reals. Where a theorem needs raw scores to be non-negative it says so.
- The LRU store needs maxsize >= 1: with less, its first put raises an exception. Checkpoint signing and the atomic file replacement of save.
- Rule signatures, enrolment, transport security, collectors, CLI, UI, and the server's linkers, rule evaluator and policy engine.
