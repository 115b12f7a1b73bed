# Verification models of the proxy's caches, release flusher, configuration merge and wire protocol

Dafny models of four parts of the proxy, with proofs of what they promise. Each
method follows the branches, limits and error cases of the code it models; where
the code mutates state the model is a class with the same fields.

* **Replay caches.** `FencedChain` is the protocol on its own: cells with a stamp, a
  branch and items, a history of writes, and the guards under which a snapshot may
  publish or retire. `AntigravityLocal`, `AntigravityHome`, `KimiLocal` and `KimiHome`
  implement it. The local ones stamp by revision or generation, the Home ones by the
  raw bytes in a remote store (`HomeStore`) where other clients write and keys expire
  between any two calls and replies get lost. `NonceSupply` hands out ids that were
  never handed out before, `Eviction` chooses the oldest entries, `ReplayItems` holds
  the item limits, `Contention` is about races that were lost.
* **Release flusher.** `ReleaseProtocol` is the acknowledgement protocol as steps on a
  state (mark, deliver, acknowledge, with any of them lost); `ReleaseFlusher` is the
  code with its maps and channels; `ReleaseBackoff` is the delay with wrap-around
  64-bit durations.
* **Configuration merge.** `YamlTree` and `YamlMerge` define the merge as a function on
  trees. `YamlMeaning` proves that the generated meaning survives, `YamlReading` when
  exactly a scalar reads the same, `YamlDefaults` what counts as a default, `YamlShape`
  what is kept of the user's document, `YamlMatching` which list elements correspond.
  `YamlHeap` and `YamlHeapMerge` are the in-place code on mutable nodes, proved to
  compute that function.
* **Wire protocol.** `Parsing` is about repeating a parser, `Resp` holds the two printers'
  formats and the two parsers as functions on bytes (RESP2 specification, sections
  "Arrays" and "Bulk strings"), `RespIo` the readers and writers on streams, `RespSession`
  the command loop of a management connection.

`dafny verify dfyconfig.toml` checks everything.

How the parts fit: a method of a cache ensures that its new abstract state is reached
from the old one by legal steps (`Leads`), so the theorems of `FencedChain` about runs
apply to every sequence of calls. A true `ReplaceIfUnchanged` or `DeleteIfUnchanged` is
one such step with its guard satisfied at the moment of the write.

A Home client keeps a record of its own writes (`HomeKV.mine`) beside the history of
all clients, so its operations say exactly how often they wrote: a confirmed one once,
a refused one never, and one whose reply was lost once or never. It also counts lost
replies and the steps of others, so that a failure or a refusal has to be justified by
them, and a call that is left alone has only one possible outcome.

Five statements that one might expect are false of the code, and are stated with their
exact condition instead.

* A Kimi deletion keeps the entry limit except in one case, which no read leads to
  (`KimiLocal.KimiCache.DeleteIfUnchanged`).
* A replacement in the Antigravity cache is a publish guarded by what was read, except
  after a failed read: the executor then still uses the snapshot, which found nothing,
  and the write goes over any absent key without a fence
  (`AntigravityHome.PublishesOnlyWhatWasRead`, `AntigravityHome.FailedReadIsNotFenced`).
* The doubling delay follows the closed form only below 2^62 ns, or when its limit
  equals the flush interval (`ReleaseBackoff.BackoffIsExponential`).
* The merge does not carry every generated scalar: a blank key in a credential map or
  list element is removed again, and an explicit `false` inside a new mapping of zeros is
  dropped although `isKnownDefaultValue` exempts it by itself;
  `YamlReading.ScalarSurvivesIff` says for which paths a scalar survives, and
  `YamlShape.KeysAfterMerge` for which keys.
* A management connection does not give one readable answer per command if a reply
  echoes a line feed, and gives one in every other case
  (`RespSession.ConversationReadsBackIff`, `RespSession.EchoedLineFeedIsMisread`).

## Model

| member | source | states |
|---|---|---|
| `FencedChain.NextKeepsCoherent` | internal/cache/antigravity_reasoning_replay_cache.go:68-73 | Every legal step of the protocol (a write on a new branch, a write that prolongs the branch it continues, a drop of any keys) keeps the invariant: stamps are never reused, one branch belongs to one key and only grows, a tombstone has no items, and each live cell is the last write to its key. |
| `FencedChain.RunKeepsCoherent` | internal/cache/antigravity_reasoning_replay_cache.go:68-73 | The invariant holds in every state of every run, and the history of writes is only ever appended to. |
| `FencedChain.BranchesOnlyGrow` | internal/cache/antigravity_reasoning_replay_cache.go:299-302 | Over every run, two writes under one non-empty branch id are to the same key and the earlier items are a prefix of the later ones. |
| `FencedChain.CurrentMeansUnbroken` | internal/cache/antigravity_reasoning_replay_cache.go:231-254 | If a snapshot is current at the end of a run, its key held that very write, or a descendant of it, in every state since the read. |
| `FencedChain.AdmittedMeansUnbroken` | internal/cache/antigravity_reasoning_replay_cache.go:335-352 | A publish is admitted only at the key of the snapshot, only if that key was never dropped, tombstoned or rewritten on another branch since the read, and only if the live items lie between what was read and what is published. |
| `FencedChain.AdmittedIff` | internal/cache/antigravity_reasoning_replay_cache.go:303-331 | Over every run, a snapshot of what a key held is admitted later if and only if that cell never changed since, or the key never left its branch and holds live items that lead up to the new ones. |
| `FencedChain.PublishKeepsReadersIff` | internal/cache/antigravity_reasoning_replay_cache.go:335-352 | A publish leaves the other readers of its branch current, and admitted for anything longer, if and only if it prolongs what it had read. |
| `FencedChain.RetireEndsReaders` | internal/cache/antigravity_reasoning_replay_cache.go:357-385 | After a retirement no snapshot taken before is admitted at the key. |
| `FencedChain.StaleForever` | internal/cache/antigravity_reasoning_replay_cache.go:335-352 | Once a snapshot is not current it is rejected in every later state of every run, for every key, even if the key is created again. |
| `FencedChain.AtMostOneWinner` | internal/cache/kimi_thinking_replay_cache.go:173-246 | After a write through a snapshot, no later state of the run still matches that snapshot, at any key. |
| `FencedChain.WinnerTakesAll` | internal/cache/kimi_thinking_replay_cache.go:173-246 | Of two commits through one snapshot, with any other steps between them, the second cannot happen. |
| `FencedChain.BranchChoicesAgree` | internal/cache/antigravity_reasoning_replay_cache.go:299-302 | For every admitted publish, the local rule and the Home rule for drawing a new branch choose the same. |
| `FencedChain.PublishIsNext` | internal/cache/antigravity_reasoning_replay_cache.go:335-352 | A publish by the rules is one legal step of the protocol. |
| `FencedChain.IssuedIsStable` | internal/cache/antigravity_reasoning_replay_cache.go:231-254 | What a snapshot says about the history stays true as the history grows. |
| `NonceSupply.FreshNonceExists` | internal/cache/antigravity_reasoning_replay_cache.go:420-426 | There is always a generation or branch id that was never handed out. |
| `NonceSupply.Supply.Draw` | internal/cache/antigravity_reasoning_replay_cache.go:420-426 | A drawn id is well formed and was never drawn before. |
| `Eviction.NewestSurvives` | internal/cache/antigravity_reasoning_replay_cache.go:623-645 | A batch smaller than the cache never removes an entry strictly newer than all others. |
| `Eviction.SortByTimestamp` | internal/cache/antigravity_reasoning_replay_cache.go:623-645 | The candidates come out in timestamp order and are the same candidates. |
| `Eviction.OldestKeys` | internal/cache/antigravity_reasoning_replay_cache.go:623-645 | The batch holds min(count, entries) distinct keys, none of them newer than any key that stays. |
| `ReplayItems.NormalizedIsFixed` | internal/cache/antigravity_reasoning_replay_cache.go:500-517 | Normalizing an accepted list again changes nothing. |
| `ReplayItems.NormalizeItems` | internal/cache/antigravity_reasoning_replay_cache.go:500-517 | The early-exit loop returns the specified normalization, whose meaning is the next three rows. |
| `ReplayItems.NormalizedSelects` | internal/cache/antigravity_reasoning_replay_cache.go:500-517 | The result holds exactly the items that normalization accepts, normalized, all of them and in their order; it is refused if and only if there are more than 4096 items, the accepted ones exceed 16 MiB, or there are none. |
| `ReplayItems.AcceptedIsStored` | internal/cache/antigravity_reasoning_replay_cache.go:500-517 | A list of items that need no normalization is returned as it is, unless its number or size is over the limit. |
| `ReplayItems.RefusedIff` | internal/cache/antigravity_reasoning_replay_cache.go:500-517 | The exact condition of a refusal, in terms of the items. |
| `ReplayItems.TotalOfParts` | internal/cache/antigravity_reasoning_replay_cache.go:505-513 | The size of a list is the sum of the sizes of its parts. |
| `ReplayItems.ItemsPrefix` | internal/cache/antigravity_reasoning_replay_cache.go:456-466 | True exactly when the first list is a prefix of the second. |
| `AntigravityLocal.ReplayCache.EvictOldest` | internal/cache/antigravity_reasoning_replay_cache.go:623-645 | Removes exactly an oldest batch and raises the eviction epoch by its size. |
| `AntigravityLocal.ReplayCache.TrimAfterWrite` | internal/cache/antigravity_reasoning_replay_cache.go:138-140 | After a write the cache is back within 10240 entries. |
| `AntigravityLocal.TrimmedIsStored` | internal/cache/antigravity_reasoning_replay_cache.go:127-141 | A strictly newest write survives the eviction that it triggers. |
| `AntigravityLocal.ReplayCache.CacheItems` | internal/cache/antigravity_reasoning_replay_cache.go:100-142 | Stores the normalized items under a fresh revision on a fresh branch, or changes nothing. |
| `AntigravityLocal.ReplayCache.ReserveAbsent` | internal/cache/antigravity_reasoning_replay_cache.go:256-275 | A miss leaves a fresh tombstone at the key, after an eviction if the cache is full, and the snapshot pins that tombstone. |
| `AntigravityLocal.ReplayCache.GetWithSnapshot` | internal/cache/antigravity_reasoning_replay_cache.go:230-254 | An entry within its lifetime is a hit: its items are returned and only its timestamp moves; a miss or an expired entry is fenced, at the cost of nothing, of the expired entry or of one batch of oldest entries; in each case the snapshot pins what the key now holds. |
| `AntigravityLocal.ReplayCache.ReplaceIfUnchanged` | internal/cache/antigravity_reasoning_replay_cache.go:279-353 | Succeeds if and only if the key still holds the write that was read, or a live descendant on its branch that the new items prolong; success is one legal publish, failure changes nothing. |
| `AntigravityLocal.PublishIsLegal` | internal/cache/antigravity_reasoning_replay_cache.go:335-352 | The revision and branch that a publish writes make it a legal step for every admitted snapshot. |
| `AntigravityLocal.ReplayCache.DeleteIfUnchanged` | internal/cache/antigravity_reasoning_replay_cache.go:357-385 | Succeeds if and only if the key still holds the very write that was read; success is one tombstone on a fresh branch. |
| `AntigravityLocal.ReplayCache.Delete` | internal/cache/antigravity_reasoning_replay_cache.go:396-418 | Leaves a tombstone under a fresh revision and branch. |
| `AntigravityLocal.ReplayCache.Clear` | internal/cache/antigravity_reasoning_replay_cache.go:478-483 | Empties the cache, raises the epoch and never reuses a revision. |
| `AntigravityLocal.ReplayCache.PurgeExpired` | internal/cache/antigravity_reasoning_replay_cache.go:647-656 | The entries within their lifetime stay, all others leave, and the epoch rises by their number. |
| `HomeStore.HomeKV.KVGet` | internal/home/client.go:1044-1057 | Between any two calls other clients may write and keys may expire; an answer is the value the key holds when it is given, a reply may be lost, and the record of this client's own writes does not change. |
| `HomeStore.HomeKV.KVCompareAndSwap` | internal/home/client.go:1081-1112 | A confirmed swap is exactly one own write, atomic and over the expected value; a refused one writes nothing, and the key does not hold what was expected; a lost reply may hide either; without a step of others the answer is about the state the call began in. |
| `HomeStore.HomeKV.KVSet` | internal/home/client.go:1059-1079 | A confirmed set is exactly one own write over whatever the key held; a lost reply may hide it or its absence. |
| `HomeStore.PermittedWrite` | internal/cache/antigravity_reasoning_replay_cache.go:319-331 | Every value that a client may write keeps the invariant of the store: fresh generations, fresh branches or the prolonged branch of the value it replaces. |
| `HomeStore.SwapOpens` | internal/cache/antigravity_reasoning_replay_cache.go:192-203 | A swap that expects no value wrote over an absent key, on no old branch; with a tombstone it is a fence. |
| `HomeStore.FirstOfRaces` | internal/cache/antigravity_reasoning_replay_cache.go:186-205 | In a series of lost races the first one lies between the two ends of the series. |
| `AntigravityHome.ReadOrReserve` | internal/cache/antigravity_reasoning_replay_cache.go:175-206 | Returns a value that the key held during the call. A value that was there is not touched: the only write of its own, if any, is one fresh tombstone over the absent key, and then that is what is returned. It gives up only over a lost reply or after losing four races to fill the key; left alone it returns what the key holds, or fences it. |
| `AntigravityHome.GetWithSnapshot` | internal/cache/antigravity_reasoning_replay_cache.go:170-229 | Pins a value that the key held during the call, even when refreshing its lifetime fails, and returns the items a reader accepts in it. It fails only over a lost reply or four lost races; it writes at most one tombstone, over an absent key, and then pins that one. |
| `AntigravityHome.CacheItems` | internal/cache/antigravity_reasoning_replay_cache.go:100-126 | A confirmed call made exactly one write, the normalized items on a new branch; an unconfirmed one made that write or none; bad input writes nothing; good input goes unconfirmed only over a lost reply. |
| `AntigravityHome.ReplaceIfUnchanged` | internal/cache/antigravity_reasoning_replay_cache.go:279-334 | With any steps of other clients between its reads and swaps: a true result is exactly one own write, an admitted publish (after a failed read: a new branch over an absent key); a refusal writes nothing, and is justified: at some moment of the call the key held neither what was read nor a readable live descendant that the new items prolong, or others came first four times in a row; it fails only over a lost reply; without steps of others and lost replies it succeeds if and only if the key fits; a stale snapshot is refused. |
| `AntigravityHome.RetrySwaps` | internal/cache/antigravity_reasoning_replay_cache.go:303-334 | The loop of at most four swaps, each over what was read or over the descendant fetched last, ends with one publish, with a justified refusal, or with a lost reply. |
| `AntigravityHome.RefusedWasUnfit` | internal/cache/antigravity_reasoning_replay_cache.go:312-328 | A swap that missed what was read and a fetch that found no descendant mean that the key did not fit at one of the two moments: what was read does not come back. |
| `AntigravityHome.FitsIsAdmitted` | internal/cache/antigravity_reasoning_replay_cache.go:303-331 | What the Home code accepts is what the publish guard admits, as long as the value is within the size a reader takes. |
| `AntigravityHome.SwapIsPublish` | internal/cache/antigravity_reasoning_replay_cache.go:303-331 | The value that a successful swap replaced satisfies the guard of a publish, and the publish is the only own write. |
| `AntigravityHome.DeleteIfUnchanged` | internal/cache/antigravity_reasoning_replay_cache.go:357-372 | A true result is exactly one own write, a tombstone over the very value that was read (after a failed read: over an absent key); a refusal writes nothing, and at some moment the key did not hold that value; it fails only over a lost reply; left alone it succeeds if and only if the key holds the value; a stale snapshot writes nothing. |
| `AntigravityHome.Delete` | internal/cache/antigravity_reasoning_replay_cache.go:396-410 | Unless it fails, the key is overwritten exactly once, with a tombstone; failing, that or nothing. |
| `AntigravityHome.StaleNeverCommits` | internal/cache/antigravity_reasoning_replay_cache.go:303-331 | A snapshot that has gone stale neither publishes nor retires in Home mode at any key, whatever was written since. |
| `AntigravityHome.StaleCommitsNothing` | internal/cache/antigravity_reasoning_replay_cache.go:303-331 | No write of a replacement or retirement through a stale snapshot exists, so the two operations leave the record of own writes as it was. |
| `AntigravityHome.PublishesOnlyWhatWasRead` | internal/cache/antigravity_reasoning_replay_cache.go:186-205 | A replacement is an admitted publish if and only if the read before it did not fail, as long as nobody stored an empty value. |
| `AntigravityHome.FailedReadIsNotFenced` | internal/runtime/executor/antigravity_reasoning_replay.go:2903-2916 | The failing input: the read of an absent key fails, another request creates the key, it expires, and the replacement goes through although no snapshot of the key would be admitted. |
| `AntigravityHome.ElementsBound` | internal/cache/antigravity_reasoning_replay_cache.go:428-440 | The base64 text of the items, with quotes and commas, is at most 4/3 of their size plus 17/3 bytes per item. |
| `AntigravityHome.PublishedIsReadable` | internal/cache/antigravity_reasoning_replay_cache.go:207-228 | Every item list that the writer accepts fits the 24 MiB limit of the reader, which returns the same items and branch, live. |
| `AntigravityHome.TombstoneIsFence` | internal/cache/antigravity_reasoning_replay_cache.go:468-475 | A tombstone fits the reader's limit and reads back as deleted, without items, on its own branch. |
| `KimiLocal.KimiCache.RemoveEntry` | internal/cache/kimi_thinking_replay_cache.go:395-429 | Removing an entry keeps the byte total equal to the sum of the stored lengths. |
| `KimiLocal.KimiCache.EvictOldest` | internal/cache/kimi_thinking_replay_cache.go:395-418 | Removes exactly an oldest batch and keeps the byte total exact. |
| `KimiLocal.KimiCache.EnforceLimits` | internal/cache/kimi_thinking_replay_cache.go:385-393 | Ends within 10240 entries and 256 MiB after removing whole batches of oldest entries, each of them because a limit did not hold before it, and removes nothing if both limits held; the branch for an empty map is never reached. |
| `KimiLocal.NextBatch` | internal/cache/kimi_thinking_replay_cache.go:385-393 | Each batch removes at least one entry and leaves the evicted set a union of oldest batches. |
| `KimiLocal.NextIsNeeded` | internal/cache/kimi_thinking_replay_cache.go:385-393 | Each batch is the min(128, rest) oldest of what is left, and is removed only while a limit is exceeded. |
| `KimiLocal.OneBatch` | internal/cache/kimi_thinking_replay_cache.go:395-418 | With the byte limit respected and one entry too many, exactly the 128 oldest entries go. |
| `KimiLocal.NewestGoesLast` | internal/cache/kimi_thinking_replay_cache.go:385-393 | A strictly newest entry is evicted only together with all others, and only if it and at most 127 others are over the byte limit by themselves. |
| `KimiLocal.NewWriteSurvives` | internal/cache/kimi_thinking_replay_cache.go:352-362 | While the bytes fit, a write newer than everything else stays, and costs the 128 oldest entries if the cache was full and nothing otherwise. |
| `KimiLocal.KimiCache.Store` | internal/cache/kimi_thinking_replay_cache.go:352-362 | Replaces the entry, keeps the total exact and the limits, and evicts no more than the limits call for. |
| `KimiLocal.KimiCache.Cache` | internal/cache/kimi_thinking_replay_cache.go:79-109 | Stores valid content under a fresh generation, or changes nothing. |
| `KimiLocal.KimiCache.Reserve` | internal/cache/kimi_thinking_replay_cache.go:345-350 | A miss leaves an empty entry with a fresh generation; making room for it costs nothing, or one batch of oldest entries if the cache was full. |
| `KimiLocal.KimiCache.GetWithSnapshot` | internal/cache/kimi_thinking_replay_cache.go:118-170 | An entry within its lifetime is a hit: only its timestamp moves; a miss or an expired entry is fenced and loses nothing else unless the cache was full; a loaded snapshot always says found. |
| `KimiLocal.KimiCache.Refresh` | internal/cache/kimi_thinking_replay_cache.go:151-169 | A read changes only the timestamp, so generation, content and total stay. |
| `KimiLocal.KimiCache.ReplaceIfUnchanged` | internal/cache/kimi_thinking_replay_cache.go:173-210 | Succeeds if and only if key and content are valid and the generation is still the one that was read; success is a commit in the sense of WinnerTakesAll. |
| `KimiLocal.KimiCache.DeleteIfUnchanged` | internal/cache/kimi_thinking_replay_cache.go:213-246 | The same for deletion; the limits still hold afterwards except in exactly one case: a snapshot of an absent key in a full cache, which no read hands out. |
| `KimiLocal.KimiCache.Delete` | internal/cache/kimi_thinking_replay_cache.go:249-276 | Removes the entry without a tombstone and keeps the total exact. |
| `KimiLocal.KimiCache.Clear` | internal/cache/kimi_thinking_replay_cache.go:279-284 | Empties the cache and the total. |
| `KimiLocal.KimiCache.PurgeExpired` | internal/cache/kimi_thinking_replay_cache.go:420-429 | The entries within their lifetime stay, all others leave, and the total stays exact. |
| `KimiHome.ReadOrReserve` | internal/cache/kimi_thinking_replay_cache.go:286-311 | Returns a value that the key held during the call. The only write of its own, if any, is one fresh tombstone over the absent key, and then that is what is returned. It gives up only over a lost reply, four lost races or a value that is too large. |
| `KimiHome.GetWithSnapshot` | internal/cache/kimi_thinking_replay_cache.go:118-150 | Fails only over a lost reply, four lost races or a value it cannot take; otherwise pins a value that the key held during the call with the content in it; writes at most one tombstone, over an absent key, and then pins that one. |
| `KimiHome.Cache` | internal/cache/kimi_thinking_replay_cache.go:79-100 | A confirmed call made exactly one write, of the content as the encoder rewrites it; an unconfirmed one made that write or none; invalid content writes nothing. |
| `KimiHome.ReplaceIfUnchanged` | internal/cache/kimi_thinking_replay_cache.go:173-197 | A true result is exactly one own write, a swap over the very bytes that were read and hence a commit that no other holder of the snapshot can repeat (for a snapshot that found nothing: a write over an absent key); a refusal of valid content writes nothing, and at some moment the key did not hold those bytes; it fails only over a lost reply; left alone it succeeds if and only if the key holds them. |
| `KimiHome.DeleteIfUnchanged` | internal/cache/kimi_thinking_replay_cache.go:213-236 | The same outcomes for deletion, with a tombstone. |
| `ReleaseProtocol.NextKeepsSound` | internal/home/concurrency_release.go:66-89 | Every step (mark, delivery, acknowledgement, each possibly lost) keeps acked <= latest, every waiting sequence within (acked, latest], a waiter at latest whenever latest > acked, and what Home received between the two. |
| `ReleaseProtocol.RunIsSound` | internal/home/concurrency_release.go:176-218 | These facts hold in every state of every run, sequences never go back and closed tickets stay closed. |
| `ReleaseProtocol.TicketsCloseExactlyWhenCovered` | internal/home/concurrency_release.go:66-89 | Over every run, a ticket is closed if and only if an acknowledged sequence reaches it; it never reopens, and Home has received at least its sequence. |
| `ReleaseProtocol.IdleIffNoTicketOpen` | internal/home/concurrency_release.go:243-252 | The flusher is idle exactly when no ticket is open. |
| `ReleaseProtocol.CoveredIsClosed` | internal/home/concurrency_release.go:176-218 | When the acknowledged sequence of a group reaches what was latest, every ticket issued before is closed. |
| `ReleaseFlusher.Flusher.MarkDirtySequence` | internal/home/concurrency_release.go:66-89 | Returns no ticket for invalid input, a closed one for a sequence already acknowledged, and otherwise an open one that is filed under its sequence. |
| `ReleaseFlusher.Flusher.Close` | internal/home/concurrency_release.go:205-210 | Closing requires, and every caller proves, that the channel was still open. |
| `ReleaseFlusher.Flusher.PendingSequences` | internal/home/concurrency_release.go:181-188 | The snapshot holds exactly the groups with latest above acked, at their latest. |
| `ReleaseFlusher.Flusher.AcknowledgeSequence` | internal/home/concurrency_release.go:201-215 | Raises acked and closes exactly the waiters it covers, each once, with marks of other callers in between. |
| `ReleaseFlusher.Flusher.FlushRound` | internal/home/concurrency_release.go:176-218 | Every group that was dirty is sent exactly once, at its latest sequence, whatever becomes of the others; the round reports a failure if and only if some frame was not confirmed; every ticket issued before it, of a group whose frame was confirmed or that was not dirty, is closed. |
| `ReleaseFlusher.Flusher.IsIdle` | internal/home/concurrency_release.go:243-252 | True exactly when no ticket is open. |
| `ReleaseFlusher.Flusher.Flush` | internal/home/concurrency_release.go:221-241 | Reports success if and only if no ticket is open, and gives up only after its last tick. |
| `ReleaseBackoff.DelayWithinTimings` | internal/home/concurrency_release.go:125-138 | For every configuration and previous delay, even after a doubling that wraps, the new delay lies between the flush interval and the maximum. |
| `ReleaseBackoff.BackoffIsExponential` | internal/home/concurrency_release.go:125-138 | k failures in a row give min(flushInterval * 2^k, maxBackoff) for every k if and only if maxBackoff is below 2^62 ns or equal to the flush interval. |
| `ReleaseBackoff.OnlyLastFailuresCount` | internal/home/concurrency_release.go:125-138 | After any history of rounds the delay is that of the failures since the last success, and backing off is reported exactly if there are any. |
| `ReleaseBackoff.HistoryIsExponential` | internal/home/concurrency_release.go:125-138 | For every history of failed and successful rounds the delay is min(flushInterval * 2^k, maxBackoff) for the k last failures, if and only if the same bound holds. |
| `YamlTree.FindKey` | internal/config/config.go:1916-1926 | The first matching key node of a mapping, or -1 when there is none. |
| `YamlMeaning.PruneKeepsZero` | internal/config/config.go:2030-2070 | A value that reads as zero still does after pruning. |
| `YamlMeaning.PruneRepresents` | internal/config/config.go:1991-2025 | A pruned copy says what the original says, default values aside. |
| `YamlMeaning.MergePairCarries` | internal/config/config.go:1822-1839 | Merging one pair makes the mapping say it, whether the key was there or not. |
| `YamlMeaning.MergePairsKeepOthers` | internal/config/config.go:1822-1839 | Merging pairs changes nothing for any other key. |
| `YamlMeaning.MergeItemCarries` | internal/config/config.go:1878-1891 | A list element, matched or copied, says what the generated element says. |
| `YamlMeaning.PruneMissingCarries` | internal/config/config.go:2339-2368 | Dropping keys that the generated mapping lacks keeps what is said about those it has. |
| `YamlMeaning.MergeCarries` | internal/config/config.go:1846-1912 | After merging any generated tree with unique keys into any document, the document is well formed and says what the generated tree says: scalars equal, lists of equal length and elementwise represented (or kept as null when empty), keys absent only if their pruned value is a default or, in pruned mappings, if they are blank. |
| `YamlReading.MergedScalars` | internal/config/config.go:1846-1912 | Every generated scalar reads the same at its path afterwards, unless a key on the way holds a default or is blank in a pruned mapping. |
| `YamlReading.ScalarSurvivesIff` | internal/config/config.go:1846-1912 | The exact condition, for every document, tree and path, under which a generated scalar reads the same: no key on the way is blank in a pruned mapping, and none that the document lacks is dropped as a default. |
| `YamlDefaults.ZeroByMeaning` | internal/config/config.go:2030-2045 | A scalar counts as zero if and only if it means false, zero, the empty text or null, and is written as the encoder writes that; other spellings of zero are kept. |
| `YamlDefaults.NumberMeans` | internal/config/config.go:2038-2040 | The decimal text of every number, with or without a sign, means that number. |
| `YamlDefaults.KnownByMeaning` | internal/config/config.go:1942-1989 | A scalar is a default if and only if it is the zero of its type or named by its path, and is not one of the explicit values. |
| `YamlDefaults.NewScalarIsWrittenIff` | internal/config/config.go:1829-1836 | For every document: a new scalar is written if and only if its meaning makes it worth writing and it is not blank-named in a pruned map; it then stands there as generated. |
| `YamlDefaults.OnlyZerosAreNotWritten` | internal/config/config.go:2046-2067 | A new list or mapping of nothing but zeros, at any depth, is not written. |
| `YamlDefaults.MeaningfulScalarsSurvive` | internal/config/config.go:1822-1912 | For every document and at every depth: a generated scalar that means anything but zero, is not a default named by its path and has no blank key above it, is there after the merge and reads the same. |
| `YamlReading.BlankKeyIsLost` | internal/config/config.go:2339-2368 | A concrete header with a blank name and a non-default value that the merge removes; only a caller that does not normalize headers can supply it. |
| `YamlReading.ExplicitFalseIsLost` | internal/config/config.go:1942-1955 | A concrete credential list: `cache-user-id: false` is generated under the new `cloak` of a matched Claude credential, is not a default by itself, and is absent from the merged list. |
| `YamlReading.LostWithItsParent` | internal/config/config.go:2030-2070 | Nothing below a new mapping that is all zero is written. |
| `YamlReading.LostInItsElement` | internal/config/config.go:1886-1890 | The same in every list: a matched element that lacks a key gets nothing of an all-zero mapping generated there. |
| `YamlReading.IdentityIgnores` | internal/config/config.go:2172-2211 | Lists, mappings and blank scalars that are added to a list element do not change what it is matched by. |
| `YamlReading.MarksMove` | internal/config/config.go:1846-1912 | Over the whole document and at every depth: each node of the user that the merge moves (keys in place, list elements to where they were matched, anything below a key that is not generated) is there afterwards with its own comments. |
| `YamlShape.MergedMappingShape` | internal/config/config.go:1822-1841 | The merged mapping is the old keys in the old order, the very same key nodes, each value merged with its own generated value, followed by the missing non-default pairs, pruned, in generated order; decided against the original mapping, not the growing one. |
| `YamlShape.KeysAfterMerge` | internal/config/config.go:1846-1862 | A key is present after the merge if and only if it was there or is generated with a non-default value, and, in the named credential maps, it is a generated key. |
| `YamlShape.KeysAfterItemMerge` | internal/config/config.go:1886-1890 | In a matched list element no key outlives its generated counterpart: the same equivalence with the pruning always on. |
| `YamlShape.PruningSelects` | internal/config/config.go:2339-2368 | Pruning keeps exactly the pairs whose trimmed key is to be kept, whole and in their order. |
| `YamlMatching.PrunedMaps` | internal/config/config.go:2374-2388 | The maps that lose stale keys are the nine named ones. |
| `YamlMatching.StaleKeys` | internal/config/config.go:1886-1890 | A key of the user that is no longer generated goes in exactly those maps, and in every matched list element; elsewhere it stays. |
| `YamlMatching.TrimPadded` | internal/config/config.go:2206-2207 | Trimming leaves exactly what stands between the white space at both ends. |
| `YamlShape.AssignmentIsSound` | internal/config/config.go:2107-2170 | Re-matching is a partial injection; each matched pair agrees on identity, trimmed text or structure; an unmatched element had no unused original to take. |
| `YamlMatching.MappingScalarFirst` | internal/config/config.go:2196-2209 | The text under a key is the trimmed scalar of the first pair whose key reads so in any case. |
| `YamlMatching.SameIdentityIff` | internal/config/config.go:2172-2194 | Two elements that carry identity keys are the same one if and only if the same first identity key holds the same text in both. |
| `YamlMatching.TakesItsOwn` | internal/config/config.go:2129-2146 | If an original is left that the same key identifies by the same text as a generated element, the element takes the first of those left that could be it, and never one identified otherwise. |
| `YamlShape.ListElements` | internal/config/config.go:1872-1899 | Each element of the merged list is the original matched to it, merged, or a copy of the generated element. |
| `YamlHeap.FindMapKeyIndex` | internal/config/config.go:1916-1926 | The loop finds the same index as the search on the tree. |
| `YamlHeap.DeepCopyNode` | internal/config/config.go:2073-2085 | The copy consists of new nodes only and stands for the same tree. |
| `YamlHeap.CopyNodeShallow` | internal/config/config.go:2089-2105 | Kind, tag, value and children become those of the source, as new nodes; the node itself and its comments stay. |
| `YamlHeap.KeepKeys` | internal/config/config.go:2343-2354 | The set of trimmed non-blank keys. |
| `YamlHeap.PruneMissingMapKeys` | internal/config/config.go:2339-2368 | Deleting pairs in place while walking over them leaves exactly the pairs to keep. |
| `YamlHeapMerge.PruneKnownDefaultsInNewNode` | internal/config/config.go:1991-2025 | The in-place pruning computes the pruned tree within the nodes of its argument. |
| `YamlHeapMerge.MatchSequenceElement` | internal/config/config.go:2129-2170 | The loops over unused originals find the match that the specification names. |
| `YamlHeapMerge.ReorderSequenceForMerge` | internal/config/config.go:2107-2127 | The original node objects are moved to the slots assigned to them, other slots are null. |
| `YamlHeapMerge.MergePairPreserve` | internal/config/config.go:1822-1839 | One pair merged in place; the existing children keep their places and their node objects. |
| `YamlHeapMerge.MergeMappingPreserve` | internal/config/config.go:1807-1841 | The in-place loop computes the merged mapping; the old children are a prefix of the new ones as node objects. |
| `YamlHeapMerge.MergeNodePreserve` | internal/config/config.go:1846-1912 | The mutually recursive in-place merge computes the merged tree, touches only nodes of the destination and adds only new ones. |
| `YamlHeapMerge.MergeSequenceNode` | internal/config/config.go:1863-1899 | The same for lists; a matched element is still the node object that it was. |
| `YamlHeapMerge.MergeRoots` | internal/config/config.go:1686 | Saving: the user document represents the generated one, every generated scalar that says something reads the same in it, it keeps its own pairs as the same nodes in the same places, and the generated tree is unmodified. |
| `Parsing.ManyReadBack` | internal/api/redis_queue_protocol.go:398-405 | If each part reads back whatever follows it, parts in a row read back in a row. |
| `Parsing.ManyReadBackOnlyIf` | internal/api/redis_queue_protocol.go:398-405 | Parts in a row read back as their values only if each of them does, provided a part that does not is never read as its value. |
| `Parsing.ManyExtend` | internal/api/redis_queue_protocol.go:398-405 | Repetition keeps the property that more input never changes a result that was not for lack of input. |
| `Resp.AtoiOfItoa` | internal/api/redis_queue_protocol.go:392-395 | Decimal text of every machine integer parses back to it. |
| `Resp.DecimalText` | internal/api/redis_queue_protocol.go:511-525 | Numbers are printed in decimal, most significant digit first, with a minus sign if negative. |
| `Resp.AtoiIsDecimal` | internal/api/redis_queue_protocol.go:392-395 | Every spelling of a decimal number, with a sign or leading zeros, parses to it, unless it is no 64-bit integer. |
| `Resp.AtoiRejects` | internal/api/redis_queue_protocol.go:392-395 | Any other text is no number. |
| `Resp.WireForm` | internal/api/redis_queue_protocol.go:471-525 | The bytes of bulk strings, nulls, integers and arrays are those of RESP2, in ASCII. |
| `Resp.TrimPadded` | internal/home/certificate.go:349-366 | Trimming leaves exactly what stands between the white space at both ends. |
| `Resp.LineRoundTrip` | internal/api/redis_queue_protocol.go:445-453 | Every line without a line feed is read exactly, a carriage return at its end included. |
| `Resp.BulkRoundTrip` | internal/api/redis_queue_protocol.go:423-443 | A bulk string of arbitrary bytes, CR and LF included, is read exactly. |
| `Resp.FrameRoundTrip` | internal/api/redis_queue_protocol.go:381-406 | Every array of bulk strings, nulls and integers reads back as its fields, and the parser stops right after it. |
| `Resp.ServerFramesReadBack` | internal/api/redis_queue_protocol.go:496-574 | The subscribe, unsubscribe, message, pong and array frames read back as their fields; a nil payload as the empty string, an integer as its decimal text. |
| `Resp.CommandRoundTrip` | internal/home/certificate.go:334-347 | An encoded command reads back as its arguments. |
| `Resp.PipelineRoundTrip` | internal/api/redis_queue_protocol.go:381-406 | Any list of commands, encoded one after another, is read as exactly those commands in order, and what is left is exactly what followed them. |
| `Resp.PipelineEndsCleanly` | internal/api/redis_queue_protocol.go:64-77 | Read until the stream ends, a pipeline gives exactly its commands and then the end of input. |
| `Resp.AcceptedString` | internal/api/redis_queue_protocol.go:408-443 | Whatever is accepted as a string is a bulk string with its length and its own line end, a simple string or an integer; a negative length reads as the empty string. |
| `Resp.AcceptedCommand` | internal/api/redis_queue_protocol.go:381-406 | A command starts with a star and a count that is a number of at least zero, and has that many arguments; anything else on its first line is refused as malformed. |
| `Resp.ArrayExtends` | internal/api/redis_queue_protocol.go:381-406 | More input changes neither a parsed array nor a protocol error. |
| `Resp.ProperPrefixFails` | internal/api/redis_queue_protocol.go:381-443 | Every proper prefix of a frame fails for lack of input, never with a protocol error. |
| `Resp.PrefixFree` | internal/api/redis_queue_protocol.go:381-443 | No frame is a proper prefix of another. |
| `Resp.HomeBulkRoundTrip` | internal/home/certificate.go:349-381 | The Home reader reads every bulk string that the printer writes. |
| `Resp.HomeNullIsNoPayload` | internal/home/certificate.go:360-366 | A null bulk string is reported as a missing reply. |
| `RespIo.Reader.ReadLine` | internal/api/redis_queue_protocol.go:445-453 | The reader loop reads the line that the grammar says. |
| `RespIo.Reader.ReadBulk` | internal/api/redis_queue_protocol.go:423-443 | Length, payload and terminator are consumed as the grammar says, or the error it names; a length beyond what a buffer can hold, where the program panics, is told apart from the end of input. |
| `RespIo.Reader.ReadString` | internal/api/redis_queue_protocol.go:408-421 | Bulk strings, simple strings and integers are read, other prefixes refused. |
| `RespIo.Reader.ReadArray` | internal/api/redis_queue_protocol.go:381-406 | The loop over the arguments reads the array that the grammar says and leaves the rest of the stream; a count beyond what a slice can hold, where the program panics, is an outcome of its own. |
| `RespIo.Reader.ReadHomeBulk` | internal/home/certificate.go:349-381 | Reads a bulk reply, an error line or an unsupported prefix as the grammar for Home replies says, with the same bound on lengths. |
| `RespIo.Writer.WriteField` | internal/api/redis_queue_protocol.go:471-517 | A bulk string, null or integer is appended in its encoding. |
| `RespIo.Writer.WriteArray` | internal/api/redis_queue_protocol.go:496-509 | The loop appends the frame of all items. |
| `RespIo.Writer.WriteSubscribe` | internal/api/redis_queue_protocol.go:527-538 | Appends the frame subscribe, channel, count. |
| `RespIo.Writer.WriteUnsubscribe` | internal/api/redis_queue_protocol.go:540-551 | Appends the frame unsubscribe, channel, count. |
| `RespIo.Writer.WriteMessage` | internal/api/redis_queue_protocol.go:553-564 | Appends the frame message, channel, payload. |
| `RespIo.Writer.WritePong` | internal/api/redis_queue_protocol.go:566-574 | Appends the frame pong, payload. |
| `RespIo.EncodeArray` | internal/home/certificate.go:334-347 | The buffer loop of Home produces the same frame as the server printers. |
| `RespSession.QueueDiscipline` | internal/api/redis_queue_protocol.go:64-213 | The queue is touched only after an earlier AUTH on the connection was allowed, and a reply hands out exactly what was popped for it, in pop order. |
| `RespSession.LoggedInIffGranted` | internal/api/redis_queue_protocol.go:88-143 | A turn starts logged in if and only if an earlier AUTH was allowed. |
| `RespSession.OutcomeOfTurn` | internal/api/redis_queue_protocol.go:64-213 | A turn answers OK exactly if it was granted, subscribes exactly for the usage channel after a login, hands out records exactly for a pop after a login, and is refused with an error otherwise. |
| `RespSession.PopsWhatIsAsked` | internal/api/redis_queue_protocol.go:172-206 | In every conversation, a pop without a count takes the oldest unexpired record, a pop with the count n takes exactly the min(n, available) oldest, and any other count or number of arguments takes nothing. |
| `RespSession.CommandWordIsFolded` | internal/api/redis_queue_protocol.go:85 | Command words are read without regard to case and to white space around them. |
| `RespSession.RepliesOnTheWire` | internal/api/redis_queue_protocol.go:455-494 | The bytes of the replies, in ASCII. |
| `RespSession.RefusalReadsBackIff` | internal/api/redis_queue_protocol.go:105-213 | A refusal reads back for what it is, and the client stops right after it, if and only if the command name, channel or handler message it echoes has no line feed. |
| `RespSession.EchoedLineFeedIsMisread` | internal/api/redis_queue_protocol.go:207-211 | The failing input: the refusal of an unknown command with a line feed in its name reads as something else, whatever follows. |
| `RespSession.ReplyReadsBackIff` | internal/api/redis_queue_protocol.go:455-538 | A client reads a reply for what it is and stops right after it if and only if it is one line; otherwise it never reads it as that reply. |
| `RespSession.OneReplyEachIff` | internal/api/redis_queue_protocol.go:64-213 | What was written reads as exactly one answer per command, in order and to the last byte, if and only if every reply is one line. |
| `RespSession.ConversationReadsBackIff` | internal/api/redis_queue_protocol.go:64-213 | For every conversation: one answer per command, if and only if no turn echoes a line feed. |
| `RespSession.EveryCommandAnswered` | internal/api/redis_queue_protocol.go:64-213 | For a whole connection: if no command in the stream and no handler message has a line feed to echo, each command that had its turn is answered exactly once, in order; a loop that ends with the stream had a turn for every command. |
| `RespSession.UsageQueue.PopOldest` | internal/redisqueue/queue.go:352-377 | Returns exactly the min(count, available) oldest of the records that have not expired, in order, and leaves the rest. |
| `RespSession.Connection.HandleAuth` | internal/api/redis_queue_protocol.go:105-143 | Logs in only on an allowed password; every other case is one error reply. |
| `RespSession.Connection.HandleSubscribe` | internal/api/redis_queue_protocol.go:144-171 | Only the usage channel is accepted. |
| `RespSession.Connection.HandlePop` | internal/api/redis_queue_protocol.go:172-206 | For a valid positive count n, takes exactly the min(n, available) oldest unexpired records off the queue and writes them; otherwise leaves the queue alone. |
| `RespSession.Connection.Handle` | internal/api/redis_queue_protocol.go:78-213 | One command, one reply, by the rules of the command loop; what is in the queue afterwards is what was not handed out. |
| `RespSession.Connection.Run` | internal/api/redis_queue_protocol.go:34-214 | Every command up to the end of the stream, a protocol error, a disabled server or a subscription has its turn in order, under the verdicts in the order they were asked for; the bytes written are the replies of the turns and the farewell; the queue was popped exactly as the turns say; and the loop ends for each of these reasons exactly when it is due. |

## Left out

- Revisions and the eviction epoch are unbounded numbers, not 64-bit counters.
- Time is a parameter of each call. The saturation of a time difference is not modelled.
- JSON editing, base64 and key hashing: values in Home are abstract bytes with a decoder and two printers that satisfy stated laws; item normalization is a parameter that is idempotent on single items.
- AntigravityHome.PublishedIsReadable: does not model the JSON text itself; it assumes that ids are at most 64 characters and that the fixed JSON text around the elements is as short as the printers write it.
- Other clients in Home are assumed to follow the same protocol, or to write values without a branch; none writes bytes that were in the store before.
- A snapshot taken in one mode (local or Home) is not used in the other.
- KimiHome.ReadOrReserve: a value written before generations existed counts as a write with an empty generation.
- Kimi's bound on the serialized size in Home depends on how the JSON encoder rewrites content; the rewriting is an abstract function and its effect on size is not modelled.
- The timers, tickers and channel scheduling of `Run` are not modelled; the flusher theorems hold for any order of events.
- A flush with a cancelled context and the wake-up signals of the flusher are not modelled beyond a send that fails.
- YAML aliases, anchors, styles, comment text and file output; a node's comments are one opaque mark that the merge must keep.
- The steps of saving before and after the merge (removal of legacy sections, `pruneMappingToGeneratedKeys`, collection styles, comment indentation).
- Lower-casing and upper-casing cover ASCII letters; the trimming of lengths and command names covers ASCII spaces.
- Node ownership is a tree: a document whose nodes are shared is not covered, and the generated tree has no null pointers.
- RespIo.Reader.ReadBulk: a length that no buffer can have (payload and terminator above 2^48 bytes) makes the program panic; the model names that outcome and says nothing about what follows it. Memory that runs out below that bound is not modelled.
- RespIo.Reader.ReadArray: the same for a count above 2^44 strings.
- The parsers accept more than the printers write (for example a length `+5`, by Resp.AtoiIsDecimal); the round trips go from printing to parsing.
- YAML numbers in notations other than decimal, and numbers with an exponent, have no value in the model; none of them counts as zero.
- Writes to the connection always succeed, so a write error does not end the model of the command loop.
- RespSession.UsageQueue.PopOldest: does not model the persistent store behind the queue or the switch that disables it.
- The verdicts of the management handler are parameters; its failure counting and bans are not modelled.
- After a successful SUBSCRIBE the model ends; streaming to subscribers and its three commands are not modelled.
