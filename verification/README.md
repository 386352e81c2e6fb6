# Talyvor Lens: verified models

Dafny models of the stateful and algorithmic parts of the Lens repository, each proved against what the code
promises. `dafny verify dfyconfig.toml` checks the whole project.

Every module follows one source file. Code that changes things step by step is modelled by methods and classes,
proved equal to a function or to a state machine step; the results are lemmas about those. `Prelude` holds what
several modules share. The central ones:

| Area | Modules | Main results |
|---|---|---|
| Word edit distance | `WordDistance`, `LaneReport`, `Counting` | The two-row table is the least number of single-word edits and a metric; the lane report's numbers add up |
| Canonicaliser fan-out | `FanOut` | Every interleaving of N goroutines, a semaphore of 8, a mutex and a wait group: an error iff a call failed, no deadlock, every run ends |
| Cache node | `RedisModel`, `CacheKeys`, `CacheSpec`, `SizeEstimate`, `CacheStorage`, `CapacityBound`, `CacheServer`, `CacheInterleaving` | Two Redis keys refine one map; ownership over whole logs; interleaved check and write; flush; capacity; counters |
| Consumer canonical form | `SortedStrings`, `ProtoWords`, `ProtoCanon`, `ProtoMatch`, `ProtoRoles`, `LiveForm` | String equality is equality of the entities the tables and expressions give, and exactly when |
| Pooling measurements | `Pooling`, `HitRate` | The shortcut is the prefix maximum; the printed ceilings are ceilings |
| Daily loops | `DailySweep` | One success a day; 25 hours less a nanosecond is exactly the window that leaves no gap |
| Money printer | `UsdMicros` | Printing and reading round-trip for every int64 but one, and no shorter string would do |
| Control campaigns | `TextFiles`, `ControlCampaign`, `EditCampaigns` | The tests see the mutation; restoration on every exit and under signals, and exactly when it is byte-exact |

## How the cache node is modelled

`RedisModel.Client` is Redis: cells with an expiry and a clock. Before every command time may pass, and every
command may fail and is then counted as a fault; a pipeline is one step, and one whose reply is an error was carried
out or was not. SCAN is any enumerator that keeps its documented guarantee: it returns only matching live keys, in
any order and any number of times, and every key present throughout the iteration at least once. What a size check
saw is a ghost listing of keys that were live when it began, with sampled lengths that are right for those still
live; the bounds on capacity are stated against the live values in the store.

`CacheServer` serves requests one at a time. A ghost log records what was written and removed; the invariant says
that the Redis keys under the two prefixes are exactly the map `CacheSpec.Fold(log)`, that every event of the log was
lawful (nobody touched another workspace's live entry), and that the counters conserve. `CacheInterleaving` gives up
one-at-a-time: checks, writes, scans and deletes of any number of requests interleave freely with the clock and with
other services, and what remains true of every run is proved, together with what does not.

## Where the code and its comments or obvious reading differ

The models follow the code. Each difference below is a lemma, with the exact condition where there is one.

- A `ttl_seconds` above 9,223,372,036 overflows the int64 of nanoseconds. One second above the limit the product is
  negative and the entry never expires (`CacheServer.LifetimeIsExact`, `CacheServer.OneSecondTooLong`).
- The ceiling of `Set` is not enforced when `Stats` fails, and a failed STRLEN counts as zero bytes
  (`CacheStorage.CacheStorage.Set`, `CacheStorage.FailedStrLenOverfills`). A SCAN that repeats a key can hide another,
  and with more than fifty values the ceiling can be overshot (`CapacityBound.RepeatsOverfill`,
  `CapacityBound.FiftyExactly`).
- "An extension of the live gate, never a replacement" fails for a quoted span that contains a bar followed by a
  prototype prefix. A match means equal live forms exactly when the same tokens were extracted, and for a clean
  prompt exactly when the other is clean too (`LiveForm.NotAlwaysAnExtension`, `ProtoMatch.MatchRefinesExactly`,
  `ProtoMatch.RefinesLiveGateIffClean`, `LiveForm.LiveFormClean`).
- The control scripts read in text mode, so a file with carriage returns is not restored byte for byte; without them
  it is. The w610 script exits at the first such file and leaves the later ones mutated
  (`EditCampaigns.RestoredExactly`, `EditCampaigns.LaterFilesStayMutated`, `ControlCampaign.UnchangedExactly`).
- Staging edits and writing as one goes show the tests the same tree exactly when a replacement with a carriage return
  is the last edit of its file (`EditCampaigns.SameTreeShown`, `EditCampaigns.ReturnsInReplacementsMatter`).
- `str.count(anchor) == 1` counts without overlaps: an anchor that overlaps itself can occur twice and count once
  (`TextFiles.CountOneMeans`).
- The sweep's window is not widened after a failure, so a single failed attempt can leave payments unjudged
  (`DailySweep.OneFailureLeavesAGap`, `DailySweep.NoGapExactly`).
- The minimum int64 prints with two minus signs, because its negation wraps around (`UsdMicros.RoundTripExactly`).
- The discovery refresh reads the clock twice, so two successful refreshes can be given instants of one UTC day,
  exactly when the first crosses midnight between its readings into the day of the second
  (`DailySweep.RefreshTwiceInOneDay`, `DailySweep.SameDayExactly`).
- The comment of cmd/hitrate says that two empty token sets pass the gate; `discriminator.Match` refuses them, so the
  "equal because empty" pairs and the pairs the gate passed are disjoint (`HitRate.EmptyPairsNeverPass`).

## Model

| member | source | states |
|---|---|---|
| WordDistance.WordDistance | cmd/lens/canoncheck.go:244-263 | the two swapped rows end with the edit-distance recurrence of the two sentences |
| WordDistance.DistanceIsMinimum | cmd/lens/canoncheck.go:241-263 | a script of that many single-word insertions, deletions and replacements exists, and none is shorter |
| WordDistance.NoShorterScript | cmd/lens/canoncheck.go:241-263 | every edit script from one sentence to another is at least as long as the distance |
| WordDistance.ShortestScript | cmd/lens/canoncheck.go:249-262 | for every table entry, a script of exactly that length for the two prefixes |
| WordDistance.DistanceIsMetric | cmd/lens/canoncheck.go:244-263 | zero iff equal, symmetric, triangle inequality, between the length difference and the longer length |
| WordDistance.TableTriangle | cmd/lens/canoncheck.go:251-258 | the triangle inequality for every three table entries |
| WordDistance.OneEditDistance | cmd/lens/canoncheck.go:251-258 | any single edit moves a sentence by at most one |
| WordDistance.CommonSuffix | cmd/lens/canoncheck.go:251-258 | equal trailing words never increase the distance |
| LaneReport.Visit | cmd/lens/canoncheck.go:278-311 | one turn of the loop keeps every counter and list equal to its definition on the pairs seen |
| LaneReport.ReportSet | cmd/lens/canoncheck.go:276-311 | the whole loop does |
| LaneReport.VerdictMeans | cmd/lens/canoncheck.go:279-294 | collapsed: one key on both sides; missed: two keys; rejected: a side without a key |
| LaneReport.FlippedMeans | cmd/lens/canoncheck.go:305-310 | the number of changed verdicts is the pairs that collapsed on one run and were missed on the other |
| LaneReport.ReportAddsUp | cmd/lens/canoncheck.go:312-330 | collapsed, rejected and missed pairs partition the list; the printed "did not collapse" number is the misses visited |
| LaneReport.OneWordMissesAtDistanceOne | cmd/lens/canoncheck.go:296-299 | the one-word count is exactly the misses at distance one |
| FanOut.StepInv | cmd/lens/canoncheck.go:173-211 | every enabled move of main or a goroutine keeps the invariant |
| FanOut.ScheduleInv | cmd/lens/canoncheck.go:173-211 | so does every schedule, with any replies and failures |
| FanOut.AtMostEightInSection | cmd/lens/canoncheck.go:177-184 | in every interleaving at most 8 goroutines are between acquire and release, and at most one holds the mutex |
| FanOut.SlotWrittenByItsOwner | cmd/lens/canoncheck.go:203-204 | a move that changes slot i is goroutine i's store |
| FanOut.SlotWrittenOnce | cmd/lens/canoncheck.go:203-204 | a filled slot never changes again |
| FanOut.SlotFromOwnCalls | cmd/lens/canoncheck.go:185-203 | after any schedule a filled slot holds the replies to its prompt of two different calls that its own goroutine made |
| FanOut.StepKeepsFirstErr | cmd/lens/canoncheck.go:187-191 | testing firstErr and assigning it are two steps, and because the mutex is held by one goroutine, nobody else records or assigns in between |
| FanOut.ReturnIsAllOrFirstError | cmd/lens/canoncheck.go:206-210 | on return all goroutines are done; there is no error iff every canonicaliser call was answered, and then every slot has two separate replies to its prompt, from its own goroutine's calls; an error is the first one recorded and one that some call was answered with; a slot is filled iff both calls of its goroutine were answered |
| FanOut.AcquireWaitsExactly | cmd/lens/canoncheck.go:177-181 | a goroutine can take its slot iff fewer than 8 are between acquire and release |
| FanOut.NoDeadlock | cmd/lens/canoncheck.go:179-206 | in every state short of the return some move is enabled |
| FanOut.WayOutIsOpen | cmd/lens/canoncheck.go:182-184 | releasing a slot never blocks and wg.Done never panics |
| FanOut.StepDecreasesMeasure | cmd/lens/canoncheck.go:173-211 | every move shortens what is left |
| FanOut.EveryRunEnds | cmd/lens/canoncheck.go:173-211 | no schedule is longer than 10 moves a prompt plus two, and one that cannot continue has returned |
| RedisModel.Client.Exec | cmd/cachenode/storage.go:126-133 | a pipeline is carried out whole, or not at all when its reply is an error |
| RedisModel.Client.Scan | cmd/cachenode/storage.go:153-173 | the guarantee of SCAN: live matching keys only, and every key that was there throughout |
| CacheStorage.CacheStorage.Get | cmd/cachenode/storage.go:76-97 | value and tag of a live entry, "" for a miss; exactly one counter moves, and none exactly when a command failed |
| CacheStorage.CacheStorage.Owner | cmd/cachenode/storage.go:101-110 | the live owner tag or ""; no counter moves |
| CacheStorage.CacheStorage.Set | cmd/cachenode/storage.go:116-134 | refuses exactly when Stats succeeded and estimate plus value exceed the ceiling; a refusal changes nothing, and if SCAN listed each key once it was justified by what is stored; otherwise both keys get one lifetime, and if no command failed the ceiling is kept with at most fifty live values and bounded with at most 10,000; it breaks only when a command failed |
| CacheStorage.CacheStorage.Delete | cmd/cachenode/storage.go:137-142 | removes both keys and nothing else |
| CacheStorage.CacheStorage.ScanKeys | cmd/cachenode/storage.go:192-208 | lists only value keys that were live when it began; a complete scan lists every one still live; it is complete whenever at most 10,000 were listed |
| CacheStorage.CacheStorage.Sample | cmd/cachenode/storage.go:211-222 | the sampled lengths never exceed the stored values and equal those still live; every STRLEN was answered iff no command failed |
| CacheStorage.CacheStorage.GetStats | cmd/cachenode/storage.go:185-237 | the estimate over a listing of live value keys sampled right, the configured ceiling, and a hit rate in [0,1] that times the answered Gets is the hits |
| CacheStorage.CacheStorage.Flush | cmd/cachenode/storage.go:147-177 | removes exactly the value keys it names and their own owner keys; unless a command failed no live value key is left and the count is the number removed iff no batch repeated a key |
| CacheStorage.AcceptedSetBounded | cmd/cachenode/storage.go:116-134 | with N live values before an accepted Set, every STRLEN answered and each key listed once: all values live afterwards fit the ceiling if N is at most 50, and exceed it by at most N-50 times the largest other value if N is at most 10,000 |
| CacheStorage.AcceptedListingBounded | cmd/cachenode/storage.go:116-134 | the same in terms of the keys listed, whatever SCAN repeats |
| CacheStorage.RefusedOnlyWhenFull | cmd/cachenode/storage.go:117-123 | with each key listed once, a refused value and all live ones are over the ceiling if there are at most 50, and it and N largest live values are in any case |
| CacheStorage.SmallStoreExactly | cmd/cachenode/storage.go:211-226 | with at most 50 live values, each listed once and measured and none expiring meanwhile, the estimate is exactly what is stored |
| CapacityBound.FiftyExactly | cmd/cachenode/storage.go:116-134 | every Set accepted with n live values before it, every STRLEN answered and each key listed once keeps the ceiling iff n is at most 50 |
| CapacityBound.BoundIsReached | cmd/cachenode/storage.go:116-134 | for every n above 50, every largest size and every value there is such a Set that ends exactly n-50 times that size over the ceiling |
| CapacityBound.RepeatsOverfill | cmd/cachenode/storage.go:193-208 | with two live values a SCAN that repeats one can hide the other, and the store stays over the ceiling |
| CacheStorage.FailedStrLenOverfills | cmd/cachenode/storage.go:217-220 | with its STRLEN failing, a value over the ceiling does not stop Set from accepting another, and the store stays over the ceiling |
| CacheStorage.SetEffect | cmd/cachenode/storage.go:126-130 | the pipeline writes the two keys of its entry and no other |
| CacheStorage.BatchSize | cmd/cachenode/storage.go:171 | counting a batch counts its keys once each iff it repeats none |
| SizeEstimate.EstimateAtLeastSample | cmd/cachenode/storage.go:211-226 | the extrapolated size is never below the bytes sampled |
| SizeEstimate.SampleAndRest | cmd/cachenode/storage.go:211-226 | any set of listed keys holds at most the sampled bytes plus the largest value for every listed key not sampled |
| SizeEstimate.EstimateAtMost | cmd/cachenode/storage.go:211-226 | the estimate never exceeds the number of listed keys times the largest sampled one |
| CacheSpec.StoreIsLastWrite | cmd/cachenode/storage.go:116-142 | the store holds under a key exactly what the last event about that key wrote |
| CacheSpec.LiveEntryIsLastWrite | cmd/cachenode/server.go:89-112 | a live entry of w with value v is there iff the last event about the key is w's write of v and it has not expired |
| CacheSpec.EntrySurvivesOthers | cmd/cachenode/server.go:137-144 | in a lawful log, an entry its owner and the operator leave alone stays what the owner wrote while it lives |
| CacheServer.RepSet | cmd/cachenode/storage.go:126-130 | the pipeline of Set is the map update of the one-map store |
| CacheServer.RepDelete | cmd/cachenode/storage.go:137-142 | the two-key delete is the removal from the one-map store |
| CacheServer.RepFlush | cmd/cachenode/storage.go:157-166 | trimming the prefix takes each value key to its own owner key, so a flush removes whole entries and no foreign key |
| CacheServer.LifetimeIsExact | cmd/cachenode/server.go:145-148 | an entry lives as long as asked iff ttl_seconds is at most 9,223,372,036 |
| CacheServer.OneSecondTooLong | cmd/cachenode/server.go:148 | one second more and the entry never expires |
| CacheServer.PostLivesAsAsked | cmd/cachenode/server.go:145-148 | without a positive ttl_seconds the event of a POST expires 3,600,000,000,000 ns after it, and otherwise, up to 9,223,372,036 seconds, after ttl_seconds times 1,000,000,000 ns |
| CacheServer.KeyOfPath | cmd/cachenode/server.go:58 | the key is what follows /cache/ in the path |
| CacheServer.CacheServer.constructor | cmd/cachenode/server.go:28-35 | over a Redis with no keys of its own the server starts with an empty store and a lawful, empty log |
| CacheServer.CacheServer.OtherOwner | cmd/cachenode/server.go:84-87 | true iff the one-map store has a live entry of another workspace |
| CacheServer.CacheServer.CacheGet | cmd/cachenode/server.go:89-112 | 200 gives the entry's value and names its owner while the entry lives, and without sharing goes only to its owner; 404 means there is no such entry for the caller; 500 iff a command failed; 200s never exceed hits |
| CacheServer.CacheServer.CachePost | cmd/cachenode/server.go:114-163 | 201 writes the caller's value, to live 3600 seconds when no lifetime was asked for and otherwise as long as asked, up to 9,223,372,036 seconds; and unless a command failed the store's size was measured, the value estimated to fit and the ceiling kept or bounded as for Set; 507 means it was estimated not to fit, and with each key listed once it did not; 400, 403 and 507 change nothing; 500 only when a command failed; another workspace's live entry is never touched |
| CacheServer.CacheServer.CacheDelete | cmd/cachenode/server.go:165-177 | 204 removes the entry, 403 changes nothing, 500 iff a command failed; another workspace's live entry is never touched |
| CacheServer.CacheServer.HandleCache | cmd/cachenode/server.go:53-79 | any request: 401 iff the node secret differs, or there is none and the development flag is off; who else is refused before anything is read; at most one event by its own workspace on its own key, with the lifetime asked for; what 201 and 507 say about capacity; and a GET answers v iff the caller last wrote v there and it lives (with sharing on: 200 gives the value of the entry that was alive, 404 means that none is) |
| CacheServer.CacheServer.Serve | cmd/cachenode/server.go:69-78 | the same for a request that was let in, by its verb |
| CacheServer.CacheServer.RunFlush | cmd/cachenode/main.go:251-271 | the operator's flush is one event of the log; on success nothing is left alive, the count is the number of entries removed iff no batch repeated a key, and keys of other services are as before |
| CacheInterleaving.StepInv | cmd/cachenode/server.go:114-177 | checks, writes, scans, deletes, the clock and foreign writes, in any order, keep the invariant |
| CacheInterleaving.KeysStayPaired | cmd/cachenode/storage.go:116-176 | in every reachable state a value key is live iff its owner key is, they expire together, and the tag is the workspace whose POST wrote the value |
| CacheInterleaving.OnlyLaterWritesAreOvertaken | cmd/cachenode/server.go:137-144 | a POST or DELETE can hit another workspace's live entry only if that entry was written after its own check |
| CacheInterleaving.SecondWriterOvertakes | cmd/cachenode/server.go:137-149 | and for every key and two workspaces there is a run in which it does |
| SortedStrings.SortIsSorted | cmd/conscheck/proto.go:130 | the sort orders its list and keeps the multiset |
| SortedStrings.SortedUnique | cmd/conscheck/proto.go:130 | two sorted arrangements of one multiset are equal |
| SortedStrings.SplitJoin | cmd/conscheck/proto.go:131 | splitting a joined list at the separator gives the components of its parts |
| SortedStrings.SplitInjective | cmd/conscheck/proto.go:131 | strings with the same components are the same |
| ProtoWords.OfferedExactly | cmd/conscheck/proto.go:103-129 | for any tables, what the switch and the ifs offer for a word is: its class in the first of person, animal, jurisdiction and role that knows the word or its alias, a relative time right before a time noun, and its alias or plain topic |
| ProtoWords.LookupExactly | cmd/conscheck/proto.go:34-74 | looking a word up gives the class of the first row that holds it, and nothing iff no row does or the class is empty |
| ProtoWords.UnitTokensExactly | cmd/conscheck/proto.go:89-91 | when figures are digits and points and units start with neither, the unit tokens of two prompts are the same multiset iff their pairs of figure and lower-case unit are |
| ProtoWords.LowerMeans | cmd/conscheck/proto.go:90 | a capital letter becomes its small letter, the Kelvin sign a k, and no other character changes |
| ProtoCanon.Add | cmd/conscheck/proto.go:95-102 | appends a token once, and only with a value |
| ProtoCanon.AddWord | cmd/conscheck/proto.go:103-129 | one word adds exactly the tokens that the rows of the tables give for it, each token once |
| ProtoCanon.ProtoCanon | cmd/conscheck/proto.go:86-132 | the loop, the seen map and the in-place sort compute the canonical form of what was extracted |
| ProtoMatch.ClassTokensAreNamed | cmd/conscheck/proto.go:95-129 | the class tokens are exactly those that the rows of the tables give for some word, none twice |
| ProtoMatch.ConsumerLexiconBarFree | cmd/conscheck/proto.go:34-84 | no table puts the separator into a token |
| ProtoMatch.CanonRecovered | cmd/conscheck/proto.go:130-131 | from the string of a clean prompt one gets back its live form and the multiset of its tokens |
| ProtoMatch.MatchIsSameEntities | cmd/conscheck/proto.go:134 | clean prompts match iff they have the same live form, the same multiset of figures with lower-case units, and are given the same class tokens by the rows of the tables |
| ProtoMatch.MatchIsSameTokens | cmd/conscheck/proto.go:134 | the same in terms of unit tokens, whatever figures and units look like |
| ProtoMatch.RefinesLiveGateIffClean | cmd/conscheck/proto.go:11-13 | a match with a clean prompt means equal live forms iff the other prompt is clean |
| ProtoMatch.MatchRefinesExactly | cmd/conscheck/proto.go:11-13 | whatever the live forms, a match means equal live forms iff the same tokens were extracted |
| ProtoMatch.OneLiveForm | cmd/conscheck/proto.go:130-131 | with the same tokens, different live forms never make the same string |
| ProtoRoles.LandlordNamed | cmd/conscheck/proto.go:62-67 | a prompt names role:landlord iff one of its words is landlord in some case |
| ProtoRoles.SidesNeverMatch | cmd/conscheck/proto.go:62-67 | a clean prompt that mentions a landlord never matches a clean one that does not |
| LiveForm.CleanIffNoProtoPrefix | cmd/conscheck/proto.go:87 | clean means: no prototype prefix at the start or right after a bar |
| LiveForm.LiveFormClean | internal/discriminator/discriminator.go:309-317 | a live form built from tokens is clean iff no token value has a bar followed by a prototype prefix |
| LiveForm.NotAlwaysAnExtension | internal/discriminator/discriminator.go:211-219 | two prompts that the live gate tells apart and the prototype tier matches |
| Pooling.MeasurePair | cmd/lens/d2qcheck.go:243-285 | baseline, scores in order, their prefix maximum, and the first variant that reached it; any error gives nothing |
| Pooling.MeasureCorpus | cmd/lens/d2qcheck.go:241-288 | one such result a pair, in order, or none at all |
| Pooling.BestAtN | cmd/lens/d2qcheck.go:228-239 | the maximum of the baseline and the first n scores, for any n |
| Pooling.CountAt | cmd/lens/d2qcheck.go:204-224 | counts the results whose score, shortcuts included, reaches the threshold |
| Pooling.GateAllowed | cmd/lens/d2qcheck.go:194-202 | counts the results the gate allows |
| Pooling.ShortcutAgrees | cmd/lens/d2qcheck.go:210-218 | for every n the shortcut is the prefix maximum, and reaches the threshold iff the baseline or one of the first n scores does |
| Pooling.CountAtMeans | cmd/lens/d2qcheck.go:204-224 | countAt counts exactly the results that reach the threshold with their first n variants |
| Pooling.SweepMonotone | cmd/lens/d2qcheck.go:204-224 | more variants or a lower threshold never serve fewer |
| Pooling.CeilingIsCeiling | cmd/lens/d2qcheck.go:194-224 | the gated count never exceeds the gate-allowed number or the ungated count |
| Pooling.CeilingIsReached | cmd/lens/d2qcheck.go:194-224 | a low enough threshold reaches that number |
| Pooling.SweepIgnoresOrder | cmd/lens/d2qcheck.go:204-224 | the counts do not depend on the order of the results |
| HitRate.SortBySimilarity | cmd/hitrate/main.go:134 | the array ends descending with the same rows |
| HitRate.Score | cmd/hitrate/main.go:116-136 | the rows are the verdicts on the pairs, in descending order of similarity |
| HitRate.VerdictMeans | cmd/hitrate/main.go:123-133 | a row passes the gate iff both forms have the same canonical form, not empty; it counts as written iff moreover the canonical form survives keying on at least one side |
| HitRate.CountAbove | cmd/hitrate/main.go:205-218 | the three counts of a threshold |
| HitRate.ColumnsMeet | cmd/hitrate/main.go:205-218 | the production and as-written columns are the sim-only rows that passed the respective gate |
| HitRate.EntityCeiling | cmd/hitrate/main.go:232-240 | the number of rows the gate passed |
| HitRate.ColumnsNested | cmd/hitrate/main.go:123-133 | as-written is at most production, production at most sim-only and at most the ceiling |
| HitRate.ColumnsAntitone | cmd/hitrate/main.go:205-218 | raising the threshold raises no column |
| HitRate.ColumnsIgnoreOrder | cmd/hitrate/main.go:134 | the sort changes no column and not the ceiling |
| HitRate.SimOnlyIsPrefix | cmd/hitrate/main.go:205-218 | after the sort, exactly the first sim-only rows clear the threshold |
| HitRate.EmptyPairsNeverPass | cmd/hitrate/main.go:162-172 | the pairs with nothing on either side and the pairs the gate passed are disjoint |
| DailySweep.SweepTransactionMonitoring | cmd/lens/monitoring_handler.go:40-60 | the loop attempts exactly the sweeps that its passes call for |
| DailySweep.AtMostOneSuccessPerDay | cmd/lens/monitoring_handler.go:46-50 | after a success no sweep is even attempted on its UTC day, while the clock does not run backwards |
| DailySweep.NoPassSkipped | cmd/lens/monitoring_handler.go:46-50 | a pass that does not sweep has a success on its day; a failed sweep is tried again at the next pass |
| DailySweep.NoGapIffClose | cmd/lens/monitoring_handler.go:47 | successful sweeps leave no instant out iff no two in a row are further apart than the window |
| DailySweep.NoGapExactly | cmd/lens/monitoring_handler.go:46-50 | whatever sweeps fail, the span from the first success to the last has no gap iff no two successes in a row are further apart than the window |
| DailySweep.OneFailureLeavesAGap | cmd/lens/monitoring_handler.go:47-48 | an hourly run in which one failed attempt leaves instants that no successful window holds |
| DailySweep.HourlyRunIsClose | cmd/lens/monitoring_handler.go:41-50 | hourly passes put successful sweeps less than 25 hours apart |
| DailySweep.TwentyFiveHoursCover | cmd/lens/monitoring_handler.go:37-60 | every instant from 25 hours before the first sweep to the last lies in some window |
| DailySweep.WindowExactly | cmd/lens/monitoring_handler.go:47 | all hourly runs are covered iff the window is at least 25 hours less one nanosecond |
| DailySweep.RefreshMarketDiscovery | cmd/lens/market_discovery_handler.go:212-231 | the loop makes exactly the refreshes that its passes call for |
| DailySweep.SameGate | cmd/lens/market_discovery_handler.go:215-222 | the refresh gates its passes as the sweep does |
| DailySweep.RefreshOncePerDay | cmd/lens/market_discovery_handler.go:217-222 | after a success no refresh is attempted on its gate day; instants on their gates' days differ in day |
| DailySweep.SameDayExactly | cmd/lens/market_discovery_handler.go:217-218 | with the clock read in order, two successful refreshes get instants of one UTC day iff the first crossed midnight between its two readings into the day the second was gated on and the second did not |
| DailySweep.RefreshTwiceInOneDay | cmd/lens/market_discovery_handler.go:217-218 | two successful refreshes with instants of the same day |
| UsdMicros.RoundTripExactly | cmd/lens/market_cli.go:77-88 | reading the printed dollars gives the amount back iff it is not the minimum int64 |
| UsdMicros.ShortestPrint | cmd/lens/market_cli.go:77-88 | above the minimum, what is printed is the shortest string that reads as the amount, and the only one of its length |
| UsdMicros.PrinterInjective | cmd/lens/market_cli.go:77-88 | no two int64 amounts print alike |
| UsdMicros.FractionIsShortest | cmd/lens/market_cli.go:83-86 | the fraction has 2 to 6 digits, denotes the micro-dollars, and no shorter one does |
| UsdMicros.ParseMinimum | cmd/lens/market_cli.go:79-82 | what the minimum prints after its sign is not a dollar amount |
| TextFiles.ReadTextExactly | scripts/w631-background-job-classification-controls.py:110 | text mode gives a file back unchanged iff it holds no carriage return |
| TextFiles.ReadTextLine | scripts/w631-background-job-classification-controls.py:110 | a carriage return ends a line, with or without a newline after it, and reads as one newline |
| TextFiles.ReplacedAtLeftmost | scripts/w631-background-job-classification-controls.py:63 | the replacement happens at the leftmost occurrence |
| TextFiles.CountOneMeans | scripts/w631-background-job-classification-controls.py:60-62 | an anchor counts one iff it occurs and every occurrence overlaps the leftmost |
| ControlCampaign.StepInv | scripts/w631-background-job-classification-controls.py:108-125 | every step of the script, the handler, an exception or a signal keeps the invariant |
| ControlCampaign.TestsSeeTheMutation | scripts/w631-background-job-classification-controls.py:58-63 | whenever the tests run, under any schedule, the target is its original text with the leftmost anchor replaced, and every other file is as it was or as text mode read it |
| ControlCampaign.TestedExactly | scripts/w631-background-job-classification-controls.py:115-125 | in the try block an undisturbed control comes to its tests iff its anchor counts one, and otherwise to the restoration with nothing written |
| ControlCampaign.EveryExitRestores | scripts/w631-background-job-classification-controls.py:20-48 | on every exit, wherever signals arrived, each file holds its starting contents, or the text-mode reading of them if it was a target with carriage returns |
| ControlCampaign.FinishedExactly | scripts/w631-background-job-classification-controls.py:108-125 | a campaign that runs through leaves the tree unchanged iff no target holds a carriage return |
| ControlCampaign.RunsThrough | scripts/w631-background-job-classification-controls.py:108-125 | left alone, a campaign whose targets exist runs through |
| ControlCampaign.UnchangedExactly | scripts/w631-background-job-classification-controls.py:20-48 | when its targets exist, every ending, under any signals and exceptions, leaves the tree unchanged iff no target holds a carriage return |
| ControlCampaign.SignalKills | scripts/w631-background-job-classification-controls.py:36-48 | a signal is fatal within three steps |
| EditCampaigns.Snapshot | scripts/w64-credential-leak-controls.py:174-177 | saves text and hash of every touched file, once each |
| EditCampaigns.Stage | scripts/w64-credential-leak-controls.py:178-186 | edits the saved texts cumulatively, failing at the first anchor that does not count one |
| EditCampaigns.StageThenWrite | scripts/w64-credential-leak-controls.py:166-201 | a failing anchor means nothing was written; otherwise what the tests see, what is left, and that a restore failure is reported iff the tree differs |
| EditCampaigns.EditInPlace | scripts/w610-public-node-discovery-controls-v9c2.py:159-172 | the files hold exactly the edits made so far, and the originals are those from before the first touch |
| EditCampaigns.RestoreOrExit | scripts/w610-public-node-discovery-controls-v9c2.py:182-186 | restores in order up to the first file that does not hash as before |
| EditCampaigns.WriteAsYouGo | scripts/w610-public-node-discovery-controls-v9c2.py:154-186 | what the tests see and what is left on every outcome; it finishes iff every touched file reads as it is stored |
| EditCampaigns.NextEdit | scripts/w610-public-node-discovery-controls-v9c2.py:165-172 | one more edit on disk is one more step of the edit list |
| EditCampaigns.SameTreeShown | scripts/w64-credential-leak-controls.py:178-191 | both campaigns show the tests the same tree iff a carriage return is only written by the last edit of its file |
| EditCampaigns.SameAnchorsFail | scripts/w610-public-node-discovery-controls-v9c2.py:165-171 | then they also fail on the same edit lists |
| EditCampaigns.ReturnsInReplacementsMatter | scripts/w64-credential-leak-controls.py:186 | a two-edit list for which the trees differ |
| EditCampaigns.RestoredExactly | scripts/w64-credential-leak-controls.py:196-201 | putting the saved texts back restores the tree iff no touched file holds a carriage return |
| EditCampaigns.LaterFilesStayMutated | scripts/w610-public-node-discovery-controls-v9c2.py:182-186 | every file up to the first that does not hash as before, and that one too, gets its saved text back, and every later file keeps its mutated text |

## Left out

- Wallet, ledger, marketplace and billing stores (`internal/*`), and the `cmd/lens` handlers that decode JSON and call one of them: thin wrappers. `canonq.Key`, `canonq.Fold`, `discriminator.Extract` and `cache.PooledPromptKey` are inputs or arbitrary functions.
- Regular expressions and `strings.Fields`: prompts are given by the words, units and tokens extracted from them. `strings.ToLower` is modelled on what those expressions yield, which is ASCII and the Kelvin sign.
- Floating point: similarities, sizes and rates are reals, and there is no NaN.
- Counters, byte totals and lengths of Go's `int` and `int64` are unbounded, except in `UsdMicros` and in the duration of a POST.
- Printing, `/health`, `/stats` over HTTP, TLS, configuration, feature flags, the determinism and cost reports, embedding and LLM calls, subprocess test runs: their results are parameters or nondeterministic choices.
- RedisModel.Client.Exec: a pipeline of which only the first command takes effect is not modelled; durations are exact nanoseconds, while go-redis sends whole seconds or milliseconds. As in go-redis, a SET without a positive duration has no expiry (the -1 that means "keep" cannot be computed: every duration of a POST is a multiple of 512, wrapped or not).
- RedisModel.Client.Scan: nothing else writes during one SCAN iteration of the sequential model; `CacheInterleaving` lets a batch be stale by the time it is deleted, but does not follow the cursor.
- CacheServer.CacheServer.HandleCache: requests are served one at a time; `CacheInterleaving` covers the interleaving of checks and writes, but not of the two reads of one GET, for which the code claims nothing.
- CacheInterleaving.KeysStayPaired: the two commands of one pipeline are one step.
- CacheSpec.EntrySurvivesOthers: the operator's flush is an event that ends an entry, whoever owns it.
- FanOut.EveryRunEnds: a canonicaliser call that never returns is not modelled; cancelling the context makes calls fail, which is.
- DailySweep.TwentyFiveHoursCover: it counts on every attempted sweep succeeding; `NoGapExactly` and `OneFailureLeavesAGap` say what holds otherwise.
- DailySweep.SameDayExactly: a clock that is set back between two readings is not covered.
- ControlCampaign.EveryExitRestores: SIGKILL, and I/O errors while restoring (the handler ignores them), are not modelled. The baseline check before the loop writes nothing and is left out.
- EditCampaigns.WriteAsYouGo: a missing file ends the script with an exception in the middle of a control; the contract says so, and that what was written stays.
- TextFiles.ReadTextExactly: files decode as UTF-8 and the platform writes `\n` as it is.
- Embednode, distill-worker limits, seed tools, and the census and guard scripts: little state.
