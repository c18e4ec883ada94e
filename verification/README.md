# UrlShortener: a verified model of its core

A Dafny 4.11 model of the URL shortener's state machines and text algorithms, with proofs.
`dafny verify dfyconfig.toml` checks the whole project.

| module | models |
|---|---|
| `CacheAside`, `CacheInterleaving` | link resolution through a TTL cache over the metadata repository: one call at a time, and with the lock-protected steps of any number of calls interleaved |
| `LinkStore`, `LinkRuns`, `ServerLinks` | the live link store (two indexes and a slug cache), the lifecycle commands, the redirect handler, runs of all of them, and what the server's own rules make of them |
| `ClickQueue`, `AnalyticsWorker`, `ClickEventTable` | the bounded event queue, the batching worker with its draining shutdown, and insert-or-ignore persistence with bounded retry |
| `ClickAggregates` | the in-memory event repository and its aggregate query |
| `RateLimiter`, `RedisRateLimiter` | the fixed-window limiter in memory, the Redis script, and their agreement |
| `Router` | path templates and most-specific dispatch |
| `JsonText`, `JsonDocuments` | JSON strings and string arrays, and finding a field in a printed document |
| `CachePayload`, `TargetUrl`, `PrivateHosts`, `Tags` | the Redis cache payload, URL normalization and its check for private targets, tag validation |
| `MassRename`, `SnakeCase` | the two-phase rename script and its conversion of names |
| `Wrappers`, `Clock`, `Decimal`, `Text`, `ClickEvents` | shared definitions |

Objects whose methods update fields are classes; each method's contract equates the new state with a
function of the old one, and the theorems are about those functions: over all runs, all
interleavings or all inputs. Protocols are state machines whose steps are the operations that hold a
lock; a step that is not enabled does nothing.

What comes from outside is an input. Every clock reading of a call is a parameter of its own, so the
clock may do anything unless a theorem says otherwise. So are generated ids and slugs, timestamps,
how far a database insert gets before it fails, and whether Redis can be reached. RFC 3339 parsing
is an arbitrary function. Numbers are unbounded except where the width shows: redirect counters wrap
at 64 bits, and the payload codec has the ranges of `stoll` and `stoull`.

Where a promise does not hold for all inputs, the model keeps the code, shows an input where it
fails, and states exactly when it holds:

- An invalidation that does not reach the cache goes unnoticed and leaves the old target cached
  (`StaleAfterLostInvalidation`). A hit always answers as of the call that filled its entry
  (`AnswersFromRun`), so as the system without a cache does now when no record of the code was updated or
  removed since (`ResolveIsTransparent`), which is exactly when its entry is of the present version
  (`EntryIsPresentExactly`) and always so on a cache that can be reached (`OnlyLostInvalidations`).
- A fill that a write overtakes leaves a stale cache entry (`StaleAfterOvertakenFill`); with no call
  under way an entry is current exactly when its fill was not overtaken (`QuiescentCache`).
- While a writer is inside its call, a later Resolve may hit the old target after an earlier one saw
  the change (`OldTargetAfterMissing`); an entry, and so a hit, is of the current version exactly when
  its fill was not overtaken and no writer of the next version is still inside its call
  (`EntryIsCurrentExactly`, `HitsServeStoredVersions`).
- An event accepted after the worker thread has ended is not flushed before the next start
  (`AcceptedAfterExit`), which takes it up (`RestartTakesUp`); when the thread has ended, all accepted
  events went through a flush exactly when, as the producers ceased, the thread was still there or the
  queue was empty (`ShutdownDrains`, `LateEventsStay`).
- An expired link answers 404 when the clock runs back between the handler's two readings
  (`ClockBackAnswers404`); it answers 410 exactly when it is expired at both (`RedirectAnswers`).
- A rename can lose a file, even in a cycle that passes validation, when a file is named like a temporary one
  (`CycleThroughTempName`); the result is the planned one exactly when no new path is the temporary
  path of a later entry (`ExecuteRenames`), which holds for the script's own plans (`PlannersNeverClash`).
- The JSON readers look for a quoted name anywhere. A create request with the slug `tags`, no earlier
  match and a string field right behind the slug is read as if that string were its tags, and so refused
  unless the string is a list in text form (`SlugNamedTags`); with the tags right behind the slug they are
  read (`TagsBehindSlug`). A field of an object is read exactly when no name before it, and no value
  but the one right before it, is the field's name or ends in a quote and that name
  (`ObjectFieldExactly`; `ReachedExactly` and `ValueTextExactly` for any document).
- LF, CR and TAB come back from JSON as n, r and t (`LineFeedDoesNotRoundTrip`); a list round-trips
  exactly when no string holds one (`ArrayFieldRoundTrip`).
- Normalizing a URL twice differs from once exactly when the authority ends in a dropped port after a
  host that ends in a blank (`NormalizeNotIdempotent`, `NormalizeIdempotentExactly`).
- The two rate limiters agree on every request sequence of one key exactly when the limit is positive or
  the window is one second (`LimitZeroDiffers`, `AgreeExactly`). Keys that differ only behind a NUL
  share a counter on the server (`NulSharesCounter`, `SharedCounterDiffers`); over all keys they agree
  exactly when each has such a policy and keys that share a counter have limit 0 (`ManyKeysAgreeExactly`).
- A time bucket contains its event exactly when the event is not before the epoch or lies on a bucket
  boundary (`BucketBeforeEpochFails`, `BucketContainsExactly`).
- A stored Redis value may stand in for its record exactly when the expiry is not before the epoch or
  is a whole second (`StoredValueBeforeEpochFails`, `StoredValueCoversExactly`).
- Substituting captures rebuilds a path's segments exactly when there are as many as in the pattern and
  captures of one name saw one value (`RepeatedNameLosesValue`, `CatchAllOfTwoSegments`,
  `CapturesRebuildPath`); a catch-all capture keeps them as one text (`CatchAllKeepsPath`).

Code and documentation disagree in two places, and the model follows the code. `redirects_24h` and
`redirects_7d` are described as rolling counts, but nothing ever resets them, so they always equal
`total_redirects` (`CountersCountRedirects`). The two-phase rename is said to be for renames that only
change case on disks that ignore it. Where paths compare with case, as they do outside Windows,
validation refuses those there (`CaseOnlyRenameRefused`, `CaseBlindExactly`); where they compare
without it such plans pass and work (`CaseOnlyPlanWorks`, `ExecuteRenames`).

## Model

| member | source | states |
|---|---|---|
| `CacheAside.CacheStore.Get` | src/storage/inmemory/in_memory_cache_store.cpp:9-32 | returns the live value; an entry past its time is evicted and read as a miss |
| `CacheAside.CacheStore.Set` | src/storage/inmemory/in_memory_cache_store.cpp:34-56 | stores with the given time to live; zero or less removes the key |
| `CacheAside.CacheStore.Delete` | src/storage/inmemory/in_memory_cache_store.cpp:58-66 | removes one key and nothing else |
| `CacheAside.CacheStore.ClearByPrefix` | src/storage/inmemory/in_memory_cache_store.cpp:68-82 | in whatever order the entries are visited, exactly the keys with the prefix go and the rest keep their values |
| `CacheAside.CachedUntilTtl` | src/storage/inmemory/in_memory_cache_store.cpp:20-55 | a written value is read back exactly until its time to live is over, and other keys are not affected |
| `CacheAside.FilledUntilExpiry` | src/core/link_service.cpp:45-53 | the exact lifetime of an entry filled by Resolve: whole seconds of what the record has left at one clock reading, counted from a later one, or no limit when nothing is left; it may outlive the record, but from the expiry on it is never a hit |
| `CacheAside.MetadataRepository.CreateLink` | src/storage/inmemory/in_memory_metadata_repository.cpp:6-41 | new state and error for valid, invalid and duplicate requests |
| `CacheAside.MetadataRepository.GetByShortCode` | src/storage/inmemory/in_memory_metadata_repository.cpp:43-57 | the stored record or not_found |
| `CacheAside.MetadataRepository.UpdateLink` | src/storage/inmemory/in_memory_metadata_repository.cpp:59-74 | replaces an existing record, or not_found and no change |
| `CacheAside.MetadataRepository.DeleteLink` | src/storage/inmemory/in_memory_metadata_repository.cpp:76-84 | removes the record; succeeds also when there is none |
| `CacheAside.RepositoryLaws` | src/storage/inmemory/in_memory_metadata_repository.cpp:6-84 | what a read sees after each operation, for every code; a created record has the request's own fields |
| `CacheAside.ResolveAfterCreate` | src/storage/inmemory/in_memory_metadata_repository.cpp:6-41 | what Resolve answers after a creation for a new code, from the fields of the request |
| `CacheAside.CodesAreIndependent` | src/core/link_service.cpp:11-72 | after any run the record and the cache entry of a code are those of the run of its own operations alone |
| `CacheAside.LinkService.Resolve` | src/core/link_service.cpp:11-58 | result, cache and event log are those of `ResolveStep`, branch by branch, whichever cache operations fail |
| `CacheAside.LinkService.LookUp` | src/core/link_service.cpp:25-57 | the half of Resolve after a miss: lookup, fill if the cache can be reached, and result |
| `CacheAside.ResolveLeaves` | src/core/link_service.cpp:15-53 | after a Resolve that was no hit the cache has the record just read for the code, or nothing |
| `CacheAside.LinkService.EmitAnalytics` | src/core/link_service.cpp:74-92 | appends one event with the status code of the outcome |
| `CacheAside.LinkService.Update` | src/core/link_service.cpp:60-65 | repository write, then invalidation if the cache can be reached, whether or not the write found a record |
| `CacheAside.LinkService.Delete` | src/core/link_service.cpp:67-72 | repository removal, then invalidation if the cache can be reached |
| `CacheAside.ApplyKeepsCoherent` | src/core/link_service.cpp:11-72 | every operation whose invalidation is not lost keeps each cache entry fit to stand in for its record |
| `CacheAside.RunIsCoherent` | src/core/link_service.cpp:11-72 | after any run the repository is that of the same run without a cache, and with no invalidation lost the cache is coherent |
| `CacheAside.EntryHistory` | src/core/link_service.cpp:11-72 | after any run every entry stands for the record that the call which filled it read, and every invalidation of its code since then was lost |
| `CacheAside.AnswersFromRun` | src/core/link_service.cpp:11-58 | after any run, whatever cache operations were lost and whatever the clock did, a hit answers as the system without a cache at the call that filled its entry, and any other answer is that of the system without a cache now |
| `CacheAside.ResolveIsTransparent` | src/core/link_service.cpp:11-58 | after any run with any clock, and a cache that forgets entries or shortens expiries at will, Resolve answers as the system without a cache does at a reading taken inside the call, for every code none of whose records was updated or removed since its entry was filled |
| `CacheAside.EntryIsPresentExactly` | src/core/link_service.cpp:11-72 | after any run an entry is of the present version of its record exactly when none was updated or removed since it was filled |
| `CacheAside.OnlyLostInvalidations` | src/core/link_service.cpp:60-72 | any other code has had an invalidation that did not reach the cache |
| `CacheAside.StaleAfterLostInvalidation` | src/core/link_service.cpp:60-65 | a run with one lost invalidation after which the old target is served |
| `CacheAside.SecondResolveHits` | src/core/link_service.cpp:13-21 | a second Resolve within the expiry is a cache hit with the same answer |
| `CacheInterleaving.ResolveRunsAlone` | src/core/link_service.cpp:11-58 | the four atomic steps with nothing in between are Resolve |
| `CacheInterleaving.UpdateRunsAlone` | src/core/link_service.cpp:60-65 | the two atomic steps with nothing in between are Update |
| `CacheInterleaving.DeleteRunsAlone` | src/core/link_service.cpp:67-72 | the two atomic steps with nothing in between are Delete |
| `CacheInterleaving.NextKeepsInv` | src/core/link_service.cpp:11-72 | every atomic step of every call keeps the account of where cache entries come from |
| `CacheInterleaving.EveryInterleavingKeepsInv` | src/core/link_service.cpp:11-72 | the account holds in every interleaving of any number of calls |
| `CacheInterleaving.StaleEntriesExplained` | src/core/link_service.cpp:11-72 | every cache entry that disagrees with the repository has a writer that has not yet invalidated it, or was set by an overtaken fill |
| `CacheInterleaving.EntriesHoldStoredVersions` | src/core/link_service.cpp:45-53 | even a stale entry holds a version the repository once held for that code |
| `CacheInterleaving.EntryIsCurrentExactly` | src/core/link_service.cpp:11-72 | in every interleaving an entry is of the current version exactly when its fill was not overtaken and the writer of the next version, if any, has invalidated |
| `CacheInterleaving.HitsServeStoredVersions` | src/core/link_service.cpp:15-20 | every hit answers from the version its entry was filled from, which is the current one exactly when the fill was not overtaken and no writer of the next version is still inside its call |
| `CacheInterleaving.MissesServeCurrentVersion` | src/core/link_service.cpp:25-43 | every other answer is from the version current at the repository read |
| `CacheInterleaving.AnswerRunsAlone` | src/core/link_service.cpp:11-58 | with nothing in between the answer of the atomic steps is that of Resolve |
| `CacheInterleaving.OldTargetAfterMissing` | src/core/link_service.cpp:67-72 | an interleaving with no overtaken fill in which one Resolve sees that the record is gone and a later one hits its old target |
| `CacheInterleaving.QuiescentCache` | src/core/link_service.cpp:11-72 | with no call under way an entry is current exactly when its fill was not overtaken, and then agrees with the repository |
| `CacheInterleaving.StaleAfterOvertakenFill` | src/core/link_service.cpp:25-53 | an interleaving of one Resolve and one Update that leaves the old target cached for good |
| `LinkStore.LiveStore.Insert` | src/storage/link_repository.cpp:6-18 | both indexes are set, or nothing when slug or id is taken |
| `LinkStore.LiveStore.FindBySlug` | src/storage/link_repository.cpp:99-110 | reads through the cache and fills it |
| `LinkStore.LiveStore.Update` | src/storage/link_repository.cpp:112-119 | replaces the record by id, then drops the cached copy |
| `LinkStore.LiveStore.ChooseSlug` | src/app/link_command_service.cpp:40-64 | the requested slug with its three refusals, or the first free one of ten drawn |
| `LinkStore.LiveStore.CreateLink` | src/app/link_command_service.cpp:66-130 | new state and reply on every path |
| `LinkStore.LiveStore.UpdateLink` | src/app/link_command_service.cpp:143-209 | field-by-field patch; a refused field leaves the stored record alone |
| `LinkStore.LiveStore.DeleteLink` | src/app/link_command_service.cpp:211-227 | soft delete by read, change and write back |
| `LinkStore.LiveStore.SetLinkEnabled` | src/app/link_command_service.cpp:229-244 | sets the flag by read, change and write back |
| `LinkStore.LiveStore.RestoreLink` | src/app/link_command_service.cpp:246-261 | clears the deletion by read, change and write back |
| `LinkStore.LiveStore.Emit` | src/http/handlers/redirect_handlers.cpp:33-83 | one event with all its fields per request when analytics is on |
| `LinkStore.LiveStore.LinkStateError` | src/http/handlers/redirect_handlers.cpp:112-161 | refusal code and event by the status at a second look |
| `LinkStore.LiveStore.HandleRedirect` | src/http/handlers/redirect_handlers.cpp:165-204 | slug check, refusal, counters, write back, event and reply of a redirect |
| `LinkRuns.WriteFacts` | src/storage/link_repository.cpp:52-64 | a record written back under its own id and slug keeps the indexes inverse and changes no other slug |
| `LinkRuns.CreateExactly` | src/app/link_command_service.cpp:40-130 | after any run the reply to a creation follows from the command and the links there are: which error in the order of the checks, which slug otherwise, and for drawn slugs the first of ten that is free and not reserved |
| `LinkRuns.EditFacts` | src/app/link_command_service.cpp:143-261 | each edit command replaces exactly the record of its slug, or fails and changes none |
| `LinkRuns.PatchExactly` | src/app/link_command_service.cpp:143-209 | after any run a patch is refused exactly when its slug has no link or an expiry, tags, metadata or campaign is bad, and then changes no link |
| `LinkRuns.RedirectFacts` | src/http/handlers/redirect_handlers.cpp:165-204 | a redirect counts exactly one visit on exactly its slug when served, nothing when refused, and emits one event, right in every field |
| `LinkRuns.EventLogIsExact` | src/http/handlers/redirect_handlers.cpp:33-83 | after any run with analytics on the event log has, in order, one event for each redirect request, with the fields of its visit, the id of the link its slug had and the code of the reply |
| `LinkRuns.RedirectsAreListed` | src/http/handlers/redirect_handlers.cpp:165-204 | the requests of that log are, in order, exactly the redirect requests of the run |
| `LinkRuns.NoEventsWhenOff` | src/http/handlers/redirect_handlers.cpp:40-42 | with analytics off there are no events |
| `LinkRuns.RunIsConsistent` | src/storage/link_repository.cpp:6-119 | in every reachable state the two indexes are inverse and every cached link equals the stored one |
| `LinkRuns.RunTracks` | src/app/link_command_service.cpp:66-261 | after every run each field of each link is its last accepted write, each counter the number of redirects served and the last access that of the last one served; a slug has no link exactly when nothing was written to it |
| `LinkRuns.CountersCountRedirects` | src/http/handlers/redirect_handlers.cpp:102-110 | the stored counters equal the redirects served for the slug since creation, modulo 2^64 |
| `LinkRuns.CounterEqualsAggregate` | src/http/handlers/redirect_handlers.cpp:33-110 | with analytics on, the counter equals the aggregate's successful redirects over any range covering all events |
| `LinkRuns.StatusIsLastWrites` | src/core/utils.cpp:618-630 | after any run the status follows from the last delete or restore, enabled flag and expiry, with precedence deleted, disabled, expired, active |
| `LinkRuns.RedirectAnswers` | src/http/handlers/redirect_handlers.cpp:112-204 | what a visitor gets after any run and with any clock, from commands and replies alone: 404 for malformed, never created or deleted; 410 for disabled, or expired at both clock readings, 404 when only at the first; else a redirect to the target last written |
| `LinkRuns.ClockBackAnswers404` | src/http/handlers/redirect_handlers.cpp:119-160 | under the server's own rules and any time format, two visits to one expired link: 404 when the clock runs back between the readings, 410 when it stands still |
| `LinkRuns.CreatedOnce` | src/app/link_command_service.cpp:66-130 | a slug with a link has been created exactly once, and id, target, creation time and redirect type are those of that command |
| `LinkRuns.VisitorGoesToCreatedTarget` | src/http/handlers/redirect_handlers.cpp:183-204 | after any run a redirected visitor is sent to the normalized URL of the one accepted creation of the slug, with its redirect type |
| `LinkRuns.ServerSendsToNormalUrls` | src/http/handlers/redirect_handlers.cpp:183-204 | under the server's own rules, after any run, every redirect goes to a URL in normal form: http or https, a lower-case host, and no private host unless allowed |
| `ServerLinks.ServerSlugsAreGood` | src/app/link_command_service.cpp:40-64 | under the server's rules, after any run, every slug with a link was created once, is no reserved name in any letter case, and is well-formed when it was asked for, or one of those drawn |
| `ServerLinks.ServerFieldsExactly` | src/app/link_command_service.cpp:89-109 | under the server's rules a creation has a bad field exactly when its expiry is unreadable or tags, metadata or campaign exceed their limits |
| `ServerLinks.ServerLinksWithinLimits` | src/app/link_command_service.cpp:66-209 | under the server's rules, after any run, every stored link has at most 20 distinct well-formed tags, and metadata and campaign within their limits |
| `LinkRuns.IdentityNeverChanges` | src/storage/link_repository.cpp:52-64 | id, slug, target, creation time and redirect type of a link never change |
| `LinkRuns.PatchValidatesOnceOrTwice` | src/http/handlers/link_handlers.cpp:500-511 | tags validated by the handler and again by the service give the record of a single validation |
| `ClickQueue.BoundedClickEventQueue.TryEnqueue` | src/analytics/bounded_click_event_queue.cpp:10-19 | appends and counts exactly when there is room and the push succeeds, else drops and counts that; depth stays within capacity |
| `ClickQueue.BoundedClickEventQueue.TryDequeue` | src/analytics/bounded_click_event_queue.cpp:20-24 | takes the front, and returns nothing exactly when empty |
| `ClickQueue.BoundedClickEventQueue.WaitDequeue` | src/analytics/bounded_click_event_queue.cpp:25-30 | however the wait ended, takes the front, and returns nothing exactly when empty |
| `ClickQueue.BoundedClickEventQueue.GetStats` | src/analytics/bounded_click_event_queue.cpp:31-34 | depth and both totals |
| `ClickQueue.BoundedClickEventQueue.NotifyStop` | src/analytics/bounded_click_event_queue.cpp:36-39 | sets the stop flag |
| `AnalyticsWorker.Worker.FlushOnce` | src/analytics/analytics_worker.cpp:10-30 | with no producer in between, the batch is the front of the queue up to the batch size, persisted or failed as a whole; queue, table and metrics are then those of the machine after one flush |
| `AnalyticsWorker.FlushAlone` | src/analytics/analytics_worker.cpp:10-30 | from any state at the start of a flush, the worker's atomic steps with nothing in between give that same flush |
| `AnalyticsWorker.NothingLost` | src/analytics/analytics_worker.cpp:6-30 | in every interleaving the accepted events, in order, are those of the flushed batches, the batch in hand and the queue; depth within capacity; offered is enqueued plus dropped; metrics and table match the flushes |
| `AnalyticsWorker.DropsAreExact` | src/analytics/bounded_click_event_queue.cpp:10-19 | in every interleaving the dropped total counts exactly the offers that found the queue full or could not be stored |
| `AnalyticsWorker.DisabledNeverRuns` | src/analytics/analytics_worker.cpp:6-6 | a worker that is not enabled never starts |
| `AnalyticsWorker.AllPersisted` | src/analytics/analytics_worker.cpp:27-30 | when no flush failed the table is what inserting the flushed events one by one gives |
| `AnalyticsWorker.PersistedExactlyOnce` | src/analytics/analytics_worker.cpp:26-30 | in every interleaving each event of a batch reported as persisted is in the table exactly once from then on, whatever other flushes failed, and no older row is lost |
| `AnalyticsWorker.BatchesIsCeiling` | src/analytics/analytics_worker.cpp:15-25 | the number of batches for a depth is the quotient rounded up |
| `AnalyticsWorker.WorkDrains` | src/analytics/analytics_worker.cpp:9-30 | once stop is requested each worker step gets closer to the end, and each finished flush is paid for |
| `AnalyticsWorker.DrainRun` | src/analytics/analytics_worker.cpp:7-30 | the same over whole runs in which producers have ceased |
| `AnalyticsWorker.ShutdownDrains` | src/analytics/analytics_worker.cpp:7-30 | from any reachable state in which stop has been requested or the thread has ended, with d events queued and producers ceased: at most ceil(d / batch_size) + 1 more flushes finish and the thread ends within a bounded number of its own steps; all accepted events then went through a flush exactly when the thread was still there or nothing was queued, and otherwise what was queued stays |
| `AnalyticsWorker.LateEventsStay` | src/analytics/bounded_click_event_queue.cpp:10-19 | at the worker's last step all accepted events have been flushed; exactly those accepted later stay in the queue until the next start |
| `AnalyticsWorker.AcceptedAfterExit` | src/analytics/bounded_click_event_queue.cpp:10-19 | a run in which an event is accepted and counted after the thread has ended, and left in the queue of the stopped worker |
| `AnalyticsWorker.WorkerCatchesUp` | src/analytics/analytics_worker.cpp:6-30 | from any reachable state with a thread and d events queued: once nothing more is offered and the worker has taken 8 d + 6 steps, every accepted event went through a flush, whatever stops and starts come in between |
| `AnalyticsWorker.RestartTakesUp` | src/analytics/analytics_worker.cpp:6-30 | the same after starting a stopped worker, so what was left in its queue is flushed |
| `ClickEventTable.Table.InsertBatch` | src/storage/sql/sql_click_event_repository.cpp:73-120 | row by row, ignoring known ids, stopping at the first error and keeping what was stored; fails also when only the acknowledgement of the last row is missing |
| `ClickEventTable.Table.PersistWithRetry` | src/analytics/analytics_worker.cpp:30 | at most max_retry_attempts + 1 attempts, success exactly at the first that completes; the table holds the longest prefix any attempt reached |
| `ClickEventTable.InsertAgain` | src/storage/sql/sql_click_event_repository.cpp:79-113 | starting over leaves the rows of whichever attempt got further |
| `ClickEventTable.NewRowsAreFirsts` | src/storage/sql/sql_click_event_repository.cpp:79-113 | a new row is the first event of its id in the batch, and its id was not in the table |
| `ClickEventTable.RetryIsExactlyOnce` | src/storage/sql/sql_click_event_repository.cpp:73-120 | after a success every id of the batch is in the table exactly once and older rows are untouched |
| `ClickAggregates.ClickEventRepository.InsertBatch` | src/storage/memory/in_memory_click_event_repository.cpp:17-21 | appends the batch in order |
| `ClickAggregates.ClickEventRepository.GetAggregateStats` | src/storage/memory/in_memory_click_event_repository.cpp:23-48 | totals of the selected events, and for each breakdown every key once with its exact count; buckets strictly ascending |
| `ClickAggregates.TotalsAreExact` | src/storage/memory/in_memory_click_event_repository.cpp:23-48 | the two totals count exactly the stored events with the queried slug and link id from the start of the range up to its end, and those among them with a code of 300 to 399 |
| `ClickAggregates.ClickEventRepository.DeleteOlderThan` | src/storage/memory/in_memory_click_event_repository.cpp:50-54 | keeps the events from the cutoff on, in order |
| `ClickAggregates.SortByStartTallies` | src/storage/memory/in_memory_click_event_repository.cpp:45-46 | sorting the buckets by start keeps them a tally and makes them strictly ascending |
| `ClickAggregates.TallyRegroups` | src/storage/memory/in_memory_click_event_repository.cpp:36-45 | the counts of all keys that fall together add up to the coarser count |
| `ClickAggregates.BreakdownsSumToTotal` | src/storage/memory/in_memory_click_event_repository.cpp:34-45 | status, domain and bucket counts each sum to total_attempts |
| `ClickAggregates.BucketsRollUp` | src/storage/memory/in_memory_click_event_repository.cpp:9-14 | hour buckets add up to day buckets and day buckets to week buckets |
| `ClickAggregates.BucketContainsExactly` | src/storage/memory/in_memory_click_event_repository.cpp:9-14 | bucket starts are multiples of the width; a bucket contains its event exactly from the epoch on or on a boundary |
| `ClickAggregates.BucketBeforeEpochFails` | src/storage/memory/in_memory_click_event_repository.cpp:9-14 | an event one tick before the epoch is put into the bucket that starts after it |
| `ClickAggregates.AdjacentRanges` | src/storage/memory/in_memory_click_event_repository.cpp:30-42 | every figure of a range is the sum over two adjacent parts |
| `ClickAggregates.RetentionKeepsQueries` | src/storage/memory/in_memory_click_event_repository.cpp:50-54 | retention removes everything older and changes no query that starts at or after the cutoff |
| `RateLimiter.InMemoryRateLimiter.Allow` | src/storage/inmemory/in_memory_rate_limiter.cpp:8-47 | errors for an empty key and a non-positive window; otherwise the new bucket and decision |
| `RateLimiter.BucketCountsWindow` | src/storage/inmemory/in_memory_rate_limiter.cpp:29-46 | the bucket counts exactly the grants of the current window |
| `RateLimiter.DecisionIsExact` | src/storage/inmemory/in_memory_rate_limiter.cpp:35-46 | each decision is the one a limiter with the whole history makes: denied exactly when limit grants were made in the window, and remaining is what is left |
| `RateLimiter.AtMostLimitPerWindow` | src/storage/inmemory/in_memory_rate_limiter.cpp:29-46 | a window never holds more than limit grants |
| `RateLimiter.AtMostTwiceLimit` | src/storage/inmemory/in_memory_rate_limiter.cpp:29-46 | no half-open interval as long as the window holds more than twice the limit |
| `RateLimiter.WindowsAreDisjoint` | src/storage/inmemory/in_memory_rate_limiter.cpp:30-33 | an earlier window of a key ends before the current one starts |
| `RateLimiter.KeysAreIndependent` | src/storage/inmemory/in_memory_rate_limiter.cpp:28-29 | a key gets the decisions it would get alone |
| `RedisRateLimiter.RedisLimiter.Allow` | src/storage/redis/redis_rate_limiter.cpp:71-107 | errors, and otherwise the script's effect and the decoded reply |
| `RedisRateLimiter.ComposeKeyInjective` | src/storage/redis/redis_rate_limiter.cpp:66-69 | distinct keys are composed to distinct texts |
| `RedisRateLimiter.WireKeyInjective` | src/storage/redis/redis_rate_limiter.cpp:66-91 | where no part holds a NUL, distinct keys use distinct counters on the server |
| `RedisRateLimiter.NulSharesCounter` | src/storage/redis/redis_rate_limiter.cpp:86-91 | keys that differ only behind a NUL share a counter |
| `RedisRateLimiter.SameDecisions` | src/storage/redis/redis_rate_limiter.cpp:22-27 | with a positive limit both limiters give the same allowed, remaining and reset time on every request sequence, although the script counts denied requests too |
| `RedisRateLimiter.SameDecisionsOneSecond` | src/storage/redis/redis_rate_limiter.cpp:22-27 | with limit 0 and a window of one second they agree as well |
| `RedisRateLimiter.LimitZeroDiffers` | src/storage/inmemory/in_memory_rate_limiter.cpp:30-33 | with limit 0 and a longer window two requests one second apart get different reset times |
| `RedisRateLimiter.AgreeExactly` | src/storage/redis/redis_rate_limiter.cpp:22-27 | they agree on all sequences of a clock that never runs back exactly when the limit is positive or the window is one second |
| `RedisRateLimiter.RedisKeysAreIndependent` | src/storage/redis/redis_rate_limiter.cpp:66-107 | on one server a key that shares its counter with no other served key gets the decisions it would get alone |
| `RedisRateLimiter.SharedCounterDiffers` | src/storage/redis/redis_rate_limiter.cpp:86-91 | two keys on one counter, one with a positive limit: two requests on which the limiters differ |
| `RedisRateLimiter.ManyKeysAgreeExactly` | src/storage/redis/redis_rate_limiter.cpp:22-107 | serving all keys at once on a clock that never runs back, the two limiters agree exactly when every served key has a positive limit or a one-second window and served keys that share a counter have limit 0 |
| `Router.SplitPath` | src/http/router.cpp:24-44 | the loop computes the segments between slashes after the leading ones |
| `Router.SplitPathJoins` | src/http/router.cpp:24-44 | joining the segments gives the path without its leading slashes, all of them and nothing else |
| `Router.SegmentsOfJoined` | src/http/router.cpp:31-39 | any list of slash-free segments is what its joined text splits into |
| `Router.LiteralsAreCounted` | src/http/router.cpp:68-77 | specificity is the number of segments that are not captures |
| `Router.CaptureExactly` | src/http/router.cpp:46-66 | a capture segment is a name in braces |
| `Router.MatchPath` | src/http/router.cpp:196-250 | the context of a match, or none |
| `Router.MatchSegments` | src/http/router.cpp:230-249 | the segment loop accepts exactly the fitting lists and records the captures |
| `Router.TakesIsMatch` | src/http/router.cpp:200-252 | a pattern takes a path segment by segment, or as a catch-all, exactly when it matches, and then records for each captured name the value of its last segment |
| `Router.TargetSplits` | src/http/router.cpp:208-212 | path and query are what stands before and after the first question mark |
| `Router.CatchAllExactly` | src/http/router.cpp:214-228 | the catch-all template matches every path but the empty one and the root |
| `Router.CapturesRebuildPath` | src/http/router.cpp:214-249 | for every match, putting the captures back rebuilds the path's segments exactly when there are as many as in the pattern and captures of one name saw one value |
| `Router.RepeatedNameLosesValue` | src/http/router.cpp:230-249 | a pattern with one name twice, on a path where putting the captures back does not give the path |
| `Router.CatchAllKeepsOneSegment` | src/http/router.cpp:216-228 | a catch-all matches any path of several segments, and putting its capture back never gives them |
| `Router.CatchAllOfTwoSegments` | src/http/router_builder.cpp:65-67 | the fallback template on /a/b captures a/b |
| `Router.CatchAllKeepsPath` | src/http/router.cpp:216-228 | the capture of a catch-all match has the segments of the path, and is the path without one leading slash when it has not just one |
| `Router.BestSpecificity` | src/http/router.cpp:124-136 | the first pass finds the most literal segments of any matching route |
| `Router.Choose` | src/http/router.cpp:138-180 | the second pass takes the earliest most specific match with the method, or one of the two errors, and names the only supported method rightly |
| `Router.RouteTable.Dispatch` | src/http/router.cpp:119-182 | over any route table and target: the earliest route with the request's method among the routes that take the path with the most literal segments is handled, with the captured values, the text behind the first question mark and its label; 404 exactly when no route takes the path; 400 exactly when none of those most specific has the method, naming it when they share one |
| `Router.SomeRouteIsBest` | src/http/router.cpp:124-136 | a most specific match exists exactly when something matches |
| `JsonText.JsonEscape` | src/core/utils.cpp:318-345 | the loop computes the escaped text |
| `JsonText.SerializeTags` | src/app/link_command_service.cpp:312-319 | the loop prints the tag array |
| `JsonText.ExtractJsonStringField` | src/core/utils.cpp:352-393 | the index loops compute `StringField` |
| `JsonText.NoStringThere` | src/core/utils.cpp:352-393 | a string without its closing quote is no value |
| `JsonText.ExtractJsonValueToken` | src/core/utils.cpp:425-493 | the index loops compute `ValueToken` |
| `JsonText.MatchBracket` | src/core/utils.cpp:453-489 | the loop over indices and flags computes the scan `Balanced` |
| `JsonText.BalancedIsFirstClose` | src/core/utils.cpp:453-489 | the scan ends at the first closing bracket outside strings at which opening and closing brackets outside strings are equal in number, or nowhere |
| `JsonText.ExtractJsonStringArrayField` | src/core/utils.cpp:495-552 | the index loops compute `StringArrayField` |
| `JsonText.ReadElements` | src/core/utils.cpp:509-551 | the loop over the elements computes `Elements`, with its lenient ends |
| `JsonText.MalformedLists` | src/core/utils.cpp:509-551 | after any number of strings an element that is no string, or that no comma follows, makes the list refused; a comma at the end does not |
| `JsonText.TokenOfArray` | src/core/utils.cpp:453-489 | the token of a printed array is the array, whatever follows it |
| `JsonText.TokenOfBrackets` | src/core/utils.cpp:453-489 | the token of a value in brackets or braces is the shortest text that closes them outside strings |
| `JsonText.ValueTextExactly` | src/core/utils.cpp:425-441 | in any document the readers get to a field's value exactly when no colon comes between the first occurrence of the quoted name and the field's own |
| `JsonText.ArrayFieldRoundTrip` | src/core/utils.cpp:318-552 | in any document a printed list is got to exactly when its key is reached, and then reads back with LF, CR and TAB turned into letters and all else intact, so as itself exactly when no string holds one of them |
| `JsonText.StringFieldRoundTrip` | src/core/utils.cpp:318-393 | the same for a single string field |
| `JsonText.NullReadsAsEmptyList` | src/core/utils.cpp:501-503 | an explicit null that is reached reads as the empty list |
| `JsonText.FirstFieldIsFound` | src/core/utils.cpp:425-431 | the first field of a document is found whatever its name or value |
| `JsonText.LineFeedDoesNotRoundTrip` | src/core/utils.cpp:377-380 | a line feed comes back as the letter n |
| `JsonDocuments.SearchTokens` | src/core/utils.cpp:425-431 | over any printed tokens the search for a plain quoted name ends behind the first string that is the name or ends in a quote and the name, and otherwise goes on behind them |
| `JsonDocuments.SearchDocument` | src/core/utils.cpp:425-431 | in front of the field itself it ends behind the first such string, or at the field |
| `JsonDocuments.ReachedExactly` | src/core/utils.cpp:425-435 | in any printed document a field is reached exactly when no string before it does so, or no colon follows the first one that does |
| `JsonDocuments.ObjectFieldExactly` | src/app/link_command_service.cpp:301-311 | after any printed string fields a field with a plain name is read exactly when no name before it, and no value but the one right before it, is the name or ends in a quote and the name |
| `JsonDocuments.ReadsNextField` | src/core/utils.cpp:425-451 | when a value is taken for the key, the string value of the field after it is read instead, whatever follows |
| `JsonDocuments.SlugNamedTags` | src/http/handlers/link_handlers.cpp:285-298 | a create request with the slug tags, no earlier match and a string field behind the slug, whatever follows: a field tags is seen and that string is read as its list, so it is refused unless the string is a list in text form |
| `JsonDocuments.TagsBehindSlug` | src/http/handlers/link_handlers.cpp:285-298 | with the tags right behind such a slug they are read |
| `Decimal.NumbersRoundTrip` | src/storage/redis/redis_cache_serialization.cpp:25-33 | a printed number is read back exactly when it is of the 64-bit type; the unsigned reader wraps negative ones around |
| `CachePayload.Split` | src/storage/redis/redis_cache_serialization.cpp:9-18 | the loop computes the pieces between bars without a trailing empty one |
| `CachePayload.DeserializeCacheValue` | src/storage/redis/redis_cache_serialization.cpp:37-64 | decodes the pieces, a miss on any malformed field |
| `CachePayload.DecodeExactly` | src/storage/redis/redis_cache_serialization.cpp:37-64 | a payload decodes to a value exactly when its first six pieces stand for that value |
| `CachePayload.PayloadRoundTrip` | src/storage/redis/redis_cache_serialization.cpp:23-64 | an encoded value decodes to itself with the expiry cut to seconds exactly when the URL holds no bar, and to a miss otherwise |
| `CachePayload.StoredValueCoversExactly` | src/storage/redis/redis_cache_serialization.cpp:25-52 | what Redis hands back may stand in for the record exactly for expiries from the epoch on or in whole seconds |
| `CachePayload.StoredValueBeforeEpochFails` | src/storage/redis/redis_cache_serialization.cpp:25-52 | an expiry one tick before the epoch comes back as the epoch |
| `TargetUrl.SplitUrlIsRegex` | src/core/utils.cpp:153-161 | splitting succeeds exactly when the regular expression matches, and any match gives the same two parts |
| `TargetUrl.NormalizeMeaning` | src/core/utils.cpp:202-252 | lower-case scheme and host; the port is dropped exactly when it is empty, 80 for http or 443 for https; everything after the authority verbatim |
| `TargetUrl.PartsGiveNormal` | src/core/utils.cpp:219-251 | the pieces of every accepted result are in normal form |
| `TargetUrl.NormalizeGivesNormal` | src/core/utils.cpp:202-252 | every accepted URL is in normal form |
| `PrivateHosts.PrivateAddressExactly` | src/core/utils.cpp:163-200 | an IPv4 address is private exactly when it is in 127/8, 10/8, 192.168/16, 169.254/16 or 172.16/12, or is 0.0.0.0 |
| `PrivateHosts.PrivateNames` | src/core/utils.cpp:163-181 | the names of the machine itself and names with a local or internal part are private in any letter case |
| `PrivateHosts.PrivateV6` | src/core/utils.cpp:182-200 | so are bracketed IPv6 addresses that start with fc, fd or fe80: |
| `TargetUrl.NormalizeIdempotentExactly` | src/core/utils.cpp:202-252 | a second pass accepts and returns the same string exactly outside the blank-before-dropped-port family |
| `TargetUrl.NormalizeNotIdempotent` | src/core/utils.cpp:202-252 | an input of that family |
| `Text.TrimResult` | src/core/utils.cpp:83-91 | the result has no blank at either end, and exactly the strings with one are changed |
| `Tags.ValidateTags` | src/core/utils.cpp:640-672 | accepts exactly lists of at most 20 well-formed tags and returns the trimmed tags without repeats |
| `Tags.DistinctResult` | src/core/utils.cpp:648-668 | the same elements, without repeats |
| `Tags.DistinctKeepsOrder` | src/core/utils.cpp:665-667 | tags come in the order of their first occurrences |
| `Tags.ValidatedTwice` | src/core/utils.cpp:640-672 | validating twice equals validating once |
| `MassRename.PlanIsPlan` | scripts/mass_rename_headers.py:93-111 | every entry of either planner is of an existing file, at most one for each, with its new name in the same directory |
| `MassRename.PlannedExactly` | scripts/mass_rename_headers.py:93-111 | a name is planned exactly when it is a stem with a capital and the extension cpp or hpp, or a stem and the extension h, and its new name is the converted stem with that extension, or the stem with hpp |
| `MassRename.PlanIsComplete` | scripts/mass_rename_headers.py:93-111 | the plan holds every listed file with such a name, once, in the order of the listing, and nothing else |
| `MassRename.ValidatePlan` | scripts/mass_rename_headers.py:123-138 | on any disk, with paths that compare with or without case, passes exactly plans with distinct new paths at which nothing stays, and names the offending path otherwise |
| `MassRename.PassesIsSafe` | scripts/mass_rename_headers.py:123-138 | where disk and paths agree about letter case these are the plans that take no name of a file that stays |
| `MassRename.FileSystem.FreeTempPath` | scripts/mass_rename_headers.py:145-148 | the search for a temporary name ends with the first of its candidates that no file has |
| `MassRename.FileSystem.ExecuteRenames` | scripts/mass_rename_headers.py:141-153 | on a disk that ignores letter case or not, for every plan of distinct existing files that passes validation no rename fails; each content is then at its new path, all other files stay and nothing else appears, exactly when no new path is the temporary path of a later entry; and each file then has its new name letter by letter |
| `MassRename.OrdinaryNamesNeverClash` | scripts/mass_rename_headers.py:141-153 | so it is for any plan, with whatever swaps and cycles, in which no new name has the temporary prefix |
| `MassRename.PlannersNeverClash` | scripts/mass_rename_headers.py:93-153 | so it is for the plans of both planners, in which no new path is an old one |
| `MassRename.CaseBlindExactly` | scripts/mass_rename_headers.py:123-142 | on a disk that ignores letter case, with paths that compare with it, a planner's plan passes exactly when its new paths are distinct and differ by more than case from every file |
| `MassRename.CaseOnlyRenameRefused` | scripts/mass_rename_headers.py:123-142 | so a rename that only changes case is refused there |
| `MassRename.CaseOnlyPlanWorks` | scripts/mass_rename_headers.py:123-153 | with paths that compare without case a plan of renames that only change case passes, is safe to execute and does not clash, unless a file is named like a temporary one |
| `MassRename.CaseOnlyPlanKeepsContents` | scripts/mass_rename_headers.py:141-153 | its planned result is that every content stays where it is up to case |
| `MassRename.SwapExchanges` | scripts/mass_rename_headers.py:123-153 | swapping any two files passes validation, never clashes, and the planned result is their contents exchanged |
| `MassRename.CycleThroughTempName` | scripts/mass_rename_headers.py:141-153 | a cycle of three files, one named like a temporary file, that passes validation and clashes |
| `MassRename.RenameLosesNothing` | scripts/mass_rename_headers.py:141-153 | after a rename as planned there are as many files as before |
| `SnakeCase.SnakeKeepsLetters` | scripts/mass_rename_headers.py:87-90 | up to underscores and case the new stem is the old one |
| `SnakeCase.SnakeIsOnePass` | scripts/mass_rename_headers.py:87-90 | the two substitutions together put underscores exactly where one pass over the old name does |
| `SnakeCase.SnakeIsTwoReplacements` | scripts/mass_rename_headers.py:87-90 | the conversion is the replacement of all matches of the first regular expression, then of the second, then small letters |
| `SnakeCase.SnakeTwice` | scripts/mass_rename_headers.py:87-90 | a converted name is left alone by a second conversion |

## Left out

- `ListLinks` of the metadata repository, the CLI, YAML configuration and the route documentation: only easy members.
- HTTP sessions, TLS, response bodies and request ids, logging and metrics text: input and output.
- HMAC, PBKDF2, SHA-256, random slugs and ids: foreign calls; ids and slugs are inputs.
- SQL sessions, dialects, migrations and the SQL aggregate and list queries: the work happens in the database.
- hiredis connections and the Redis cache store's commands: only the payload codec and the limiter script are modelled.
- src/security: services over SQL tables whose schema is not part of this model.
- LinkStore.LiveStore.Emit: does not feed the legacy queue as well, which is never drained; header values and the client hash are inputs.
- `extractJsonFlatObjectStringField`, reference rewriting in the rename script and secret redaction: they rest on regular-expression engines.
- The root redirect handler: after its own guards it does what the prefixed one does.
- Lost cache operations under interleaving: `CacheInterleaving` has a cache that can always be reached.
- Non-ASCII letters in `MassRename`: Python's `isupper` and `lower` disagree on a few of them, and the model has ASCII case only.
- 64-bit wrap-around of the queue's two totals and of clock arithmetic.
- Starting the worker from another thread while a Stop is under way: the source then assigns to a thread that has not been joined.
- Fairness: the shutdown bound counts the worker's own steps and does not say how soon they are scheduled.
