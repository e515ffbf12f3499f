# Tripflare in Dafny

Tripflare hands out slugs, records every DNS query and HTTP request that names one, keeps the
newest events of each slug in memory, writes them to SQLite in the background, and streams them to
whoever watches. This project models the parts of it that have to stay consistent with each other,
and proves what they keep.

Check everything with `dafny verify dfyconfig.toml`.

## What is modelled

**The flush and restart protocol.** An entry in memory keeps three counters that have to agree with
a log it never sees: `dirty`, `flushedCount` and `evictedDuringFlush`. A flush copies dirty entries
under the registry's lock, writes to the store without the lock, and then corrects the counters
under the lock again. In between, events are recorded, evicted and cleared, slugs are deleted and
expire, store calls fail, and the process restarts.

* `Records`, `Entries`, `Tables`: events, one slug's entry, and the two tables of the store.
* `Protocol`: registry, store and flusher as one state machine. A step is one critical section or
  one transaction, so a run is any interleaving. `log` (everything recorded) and `journal`
  (everything ever committed) are histories that no step reads.
* `Views`: the same machine as one slug sees it; every step is one of thirteen acts on that view.
* `ExactlyOnce`, `Conservation`, `Agreement`, `RoundTrip`: the results, each under the discipline
  it is proved for (below).
* `Losses`, `DeleteRaces`: what happens outside the disciplines, exactly: which events a clear in
  mid-flush loses, and what a delete in mid-flush leaves behind.
* `Recordings`, `Effects`: what the steps of a run must do, read off the steps: what is recorded and
  stays in a window, what deletes, cleanups and purges take away, and that a whole flush is a run.
* `EntryRuns`: what the operations do to a single entry. `RestartLimit`, `Hypotheses`: the runs from
  an empty system that show which hypotheses cannot be dropped.
* `SlugEntries`, `Stores`, `Registry`, `Housekeeping`: the same operations as the objects they are.
  Slices are arrays that are appended to, cut and replaced in place, maps are ranged over while
  they shrink, and each method's new state is given by the functions of `Entries` and `Tables`.
  `Housekeeping` holds the flush loop's tick and the HTTP delete.

**The limiter.** `RateLimit` (buckets), `RateTraces` (traces of calls and collections), `GcAge`
(when collections show), `Limiter` (the object).

**Publish and subscribe.** `Channels`, `PubSub` (state machine), `PubSubSafety` (channel
lifecycle), `Streams` (what a client of the event stream sees), `Histories` (what it must see, read
off the steps of a run), `Turns` (what each turn of the stream loop writes, in the machine and in
the loop), `Hub` (the objects and the loop).

**Names and challenges.** `SlugIds`, `Hosts` (the two extractors), `Challenges` and
`ChallengeStores` (the TXT store), `Questions` and `FrontEnds` (a DNS message, an HTTP hit).

## Disciplines

The state machine lets anything happen at any time, with one exception that is built in: a flush
does not begin while another runs. The program does not enforce this (the final flush at
`cmd/tripflare/main.go:94` can overlap one of the loop's). A run may keep to more:

| discipline | also assumed | results |
|---|---|---|
| `AnyRun` | nothing | exactly-once persistence; dropped events stay dropped; which events are lost |
| `NoClearMidFlush` | no `ClearEvents` on a slug whose snapshot is being flushed | acknowledgements are precise; conservation; clean means written |
| `Orderly` | and HTTP deletes complete, no slug is deleted or purged while its own snapshot is being flushed, rows are read back in insertion order | store and memory agree; restarts revive nothing; restart round trip, with what earlier slugs of the same ID leave in it |
| `FreshNames` | and a new slug never takes an ID the store still knows | exact restart round trip |

The clock never goes back. The cap and the lifetime are arbitrary integers, as nothing validates
them.

## What came out

* Exactly-once persistence needs no more than one flusher at a time. It holds for every cap, under
  clears in the middle of a flush, half-done deletes, reused IDs, and rows read back in any order.
* Two overlapping flushes write an event twice exactly when the first had something to write for
  the slug and in between nothing was cleared and the ring has not turned over (`OverlapRepeats`); in orderly runs this holds
  of every dirty entry (`OverlapOfReached`), and one recorded event is enough (`OverlapWritesTwice`).
* A clear in the middle of a flush makes the acknowledgement wrong exactly when fewer events were
  evicted since the collection than were collected; it then counts events as flushed that no flush
  has seen (`AckPreciseUnlessCleared`). Of the unwritten events of a live window, exactly
  those are lost that are in no snapshot and stand below `flushedCount` (with a flush under way: also
  below what it will count as flushed): no continuation writes them. The others, among them what is
  recorded after the next collection, are written by some continuation (`LostExactly`,
  `AckResumes`). A run without errors loses one event and stores the one after it
  (`ClearLosesAnEvent`).
* Nothing keeps an HTTP delete (`internal/httpserver/handlers.go:145-151`) apart from a flush that
  holds the slug's snapshot. Its two halves are separate critical sections, and the store's half is
  what counts. The end of the flush finds store and memory in disagreement about the slug exactly
  when, after the store's half, the flush writes the slug's row back and the slug is not expired by
  then, or that half fell between row and events and the events are still written
  (`DeleteInFlight`; `EraseFailsInFlight` when the store's half fails). In the first case a restart
  brings the deleted slug back (`DeletedSlugComesBack`, `DeletedSlugRevives`); in the second the rows
  belong to no slug (`DeleteCanOrphanRows`, `HalvesCanOrphanRows`). Other slugs are not affected
  (`OthersStillAgree`), and a store's half that meets no snapshot of the slug settles it
  (`AgreesAgainAfterDelete`).
* `CreateSlug` looks for a free ID in memory only, and memory forgets a slug before the store does. A
  slug that takes such an ID gets, at the next restart, every stored event of the earlier slug that
  is newer than the cutoff, one second before the earliest creation time (`RestartRoundTrip` says so
  exactly; `ReusedNameInherits` is a run). None of its own events is missing.
* The repository's documentation promises a ring buffer of `max_events_per_slug` (its README.md:84
  and README.md:249).
  The code keeps that from the creation of a slug on (`WindowIsNewest`), but not across a restart:
  loading takes every stored row, and the allocation at `internal/registry/registry.go:296` panics
  when more than one row above the cap was loaded. Evicted events stay in the store, so a slug that
  recorded and flushed two events more than the cap can record nothing after a restart until it is
  cleared (`RestartCanStopRecording`, for every cap; `LoadedWindow`).
* Events recorded between reading a stream's history and subscribing never reach that client
  (`GapIsNeverDelivered`, and a run in which there is one, `GapLosesAnEvent`). A client has missed
  nothing exactly when there was no such event, every event since found room in the buffer and was
  taken, and the channel was not closed before a record (`StreamMissesNothing`).
* If the store's half of an HTTP delete fails, the answer is still 204, and memory and store
  disagree exactly when the store holds the slug and it has not expired (`HandleDeleteSlug`).
* Removing a challenge value removes its oldest copy. That undoes the latest `Set` exactly when
  nothing but that value follows its first copy (`CleanUpUndoesPresent`).

## Model

| member | source | states |
|---|---|---|
| ExactlyOnce.ExactlyOncePersistence | internal/registry/persistence.go:22-43 | in every run from an empty system, everything ever committed was recorded, is in record order per slug and is never repeated; so are the rows stored at any moment, which are a suffix of what was committed |
| Conservation.AckIsPrecise | internal/registry/persistence.go:36-39 | acknowledging sets `flushedCount` to the number of window events older than the snapshot, whatever was evicted since; exactly those were ever written; the entry stays dirty exactly when something was recorded for the slug since |
| Conservation.EventsAreConserved | internal/registry/registry.go:281-318 | outside a flush every recorded event is exactly one of persisted, pending, dropped; windows hold only recorded events of their own slug |
| Conservation.CrashLosesOnlyPending | internal/registry/persistence.go:46-79 | a restart between flushes turns the pending events into dropped ones and changes the state of no other |
| Conservation.CleanMeansWritten | internal/registry/persistence.go:87-90 | an entry that a flush would skip has had its whole window written |
| Conservation.DroppedStaysDropped | internal/registry/registry.go:290-299 | an event neither written, in its window nor in flight is never written and never comes back, in any continuation |
| Agreement.FlushedPrefixIsStored | internal/registry/persistence.go:106-107 | the stored part of an unexpired slug's window is the newest part of its stored rows: the first `flushedCount` events, while an acknowledgement is due what it will count, and the whole of a window too full to record |
| Agreement.StoreAndMemoryAgree | internal/store/store.go:172-229 | every stored slug is the one in memory or expired, every row belongs to a stored slug, every clean unexpired slug is stored |
| Agreement.RestartRevivesNothing | internal/registry/persistence.go:62-74 | whatever a restart brings back was in memory, as the same slug, and is not expired |
| RoundTrip.CutoffMissesNothing | internal/registry/persistence.go:129-155 | the cutoff shared by all slugs, one second before the earliest creation, loses no row of a live slug |
| RoundTrip.RestartRoundTrip | internal/registry/persistence.go:46-79 | a restart at any moment of an orderly run gives a live slug, all flushed, the newest part of its ID's stored rows, those after the cutoff: none of its own is missing, what of its window was stored is at the end as far as it is after the cutoff and, unless something was evicted or cleared, is all of its own; nothing but its own events comes back if and only if no row of an earlier slug of the ID is after the cutoff |
| RoundTrip.FreshRestartRoundTrip | internal/registry/persistence.go:46-79 | if no ID is drawn that the store still knows, it gives exactly the stored rows; these end with the stored part of the window, which is the whole window when clean, and are that part when nothing was evicted or cleared |
| Hypotheses.ReusedNameInherits | internal/registry/registry.go:90-96 | for every positive lifetime and cap, an orderly run without errors, after which a restart gives a slug that recorded nothing an event of the earlier slug of its ID |
| RestartLimit.RecordingAfterRestart | internal/registry/registry.go:296 | after a restart in any state and with rows read in any order, recording panics if and only if more than cap + 1 rows of the ID are after the cutoff, or the cap is below one and none is |
| RestartLimit.RestartCanStopRecording | internal/registry/persistence.go:62-74 | for every cap there is an error-free, clear-free, non-overlapping run after which a restart leaves a slug whose next record call panics |
| Losses.LostExactly | internal/registry/persistence.go:37-38 | in any run, an unwritten event of a live window is written by some continuation if and only if it is in the snapshot in flight or stands past what the counters, or the flush under way, count as flushed |
| Losses.AckResumes | internal/registry/persistence.go:37-38 | in any run, an acknowledgement leaves pending exactly the window past what the snapshot covers, and dirty exactly if that is not empty |
| Hypotheses.ClearLosesAnEvent | internal/registry/registry.go:248-250 | for every cap of at least two, an error-free run with one clear in mid-flush ends between flushes with a clean live entry, an event of which no continuation ever writes, while a later event is stored |
| DeleteRaces.DeleteInFlight | internal/httpserver/handlers.go:145-151 | wherever the registry's half came: when the store's half meets the slug's snapshot in flight, store and memory disagree on the slug at the end of the flush if and only if its row is written after that half and it is not expired, or that half came between row and events and the events are written |
| DeleteRaces.EraseFailsInFlight | internal/httpserver/handlers.go:148-150 | the same for a store's half that fails: then also what the store holds already, an unexpired row or events without a row, stays |
| DeleteRaces.DeletedSlugComesBack | internal/registry/persistence.go:26 | a restart then revives the deleted slug if and only if its row was written after the store's half and is not expired, or that half failed on an unexpired row |
| DeleteRaces.AgreesAgainAfterDelete | internal/httpserver/handlers.go:145-151 | a store's half that meets no snapshot of the slug leaves store and memory agreed on it, whatever came before, for as long as the run then treats the slug in an orderly way |
| DeleteRaces.OthersStillAgree | internal/httpserver/handlers.go:145-151 | store and memory agree on every slug that the run itself treats in an orderly way, whatever it does to others |
| Hypotheses.DeletedSlugRevives | internal/httpserver/handlers.go:145-151 | for every positive lifetime, an error-free run with one delete in mid-flush after which a restart brings the deleted slug back |
| Hypotheses.DeleteCanOrphanRows | internal/registry/persistence.go:30-34 | an error-free run with one delete between row and events leaves event rows of no stored slug |
| Hypotheses.HalvesCanOrphanRows | internal/httpserver/handlers.go:145-151 | an error-free run in which the slug's row is written between the halves of its delete does so as well |
| Hypotheses.CollectedIsJustCollected | internal/registry/persistence.go:87-103 | in orderly runs a collection leaves every dirty entry as `AckPreciseUnlessCleared` and `OverlapRepeats` require it |
| Views.StepsMove | internal/registry/registry.go:224-318 | every step of the machine is one act on the view of each slug and moves nothing else of it |
| EntryRuns.WindowIsNewest | internal/registry/registry.go:290-308 | from creation on the window is the last `max` events offered since the latest clear; with a non-positive cap every record call panics, otherwise none |
| Recordings.RecordIsNeverRefused | internal/registry/registry.go:281-318 | whatever the window holds and wherever a flush stands, a record call for a registered slug that does not panic logs exactly one event, the call's kind, address, data and time, which is the newest of the window; other slugs and the store are as before |
| Recordings.WindowOfRun | internal/registry/registry.go:281-318 | in any run, from the creation of a slug and for as long as its entry lives, its window is the newest `max` of the record calls made for it since, or since the latest clear, read off the steps |
| Recordings.EntryStays | internal/registry/registry.go:255-279 | only a delete, a cleanup that finds it expired or a restart ends an entry |
| Effects.DeletesRemove | internal/store/store.go:208-229 | a delete takes its slug from memory and store, one half at a time or both, with all of its rows, and leaves every other slug in both as it is |
| Effects.CleanupRemovesExpired | internal/registry/registry.go:255-279 | a cleanup leaves exactly the slugs that have not expired, as they are |
| Effects.PurgeRemovesExpired | internal/store/store.go:172-206 | a purge leaves exactly the slugs that had not expired by then, with all of their rows, and none of the others' rows |
| Effects.FlushIsARun | internal/registry/persistence.go:22-43 | from every state without a flush under way the machine has a run that is a whole flush: every dirty slug is stored, its rows and the journal grow by exactly its unflushed events, it is clean, and nothing else changes, as for `Registry.FlushTo` |
| Effects.EmptySlugIsStored | internal/registry/registry.go:239-253 | a slug that was drawn or cleared is stored by the next flush even with nothing recorded: its row, no new event rows, an empty clean window |
| EntryRuns.LoadedWindow | internal/registry/persistence.go:62-74 | after loading at most cap + 1 rows and until a clear, recording keeps the newest max(cap, loaded) events; after loading more it panics and the window is frozen until a clear; from then on the window is the last cap events offered; for every cap, with the exact condition of a panic |
| EntryRuns.EvictionsAreTurns | internal/registry/registry.go:290-299 | whatever happens to an entry, its eviction count is the number of record calls since the latest collection that met a full window, counted off the operations; a clear does not reset it |
| EntryRuns.AckPreciseUnlessCleared | internal/registry/registry.go:248-250 | the acknowledged count is right if and only if nothing was cleared, or at least as many record calls met a full window as events were collected; otherwise it counts events no flush has seen |
| EntryRuns.OverlapRepeats | cmd/tripflare/main.go:94 | two overlapping flushes write some event twice if and only if the first had pending events, and nothing was cleared and the ring has not turned over since |
| Hypotheses.OverlapOfReached | cmd/tripflare/main.go:94 | the same for every dirty entry of every orderly run |
| Hypotheses.OverlapWritesTwice | cmd/tripflare/main.go:94 | one event recorded in a fresh system is written twice by two overlapping flushes |
| Tables.RowsOfWithout | internal/store/store.go:180-191 | deleting slugs removes all rows of theirs and leaves every other slug's rows in place and order |
| Tables.EventsSinceIsSuffix | internal/store/store.go:144-148 | for events in time order, a timestamp cutoff keeps a suffix |
| SlugEntries.SlugEntry.RecordEvent | internal/registry/registry.go:290-308 | the array-backed entry becomes what `RecordEntry` says; false exactly when the allocation panics |
| SlugEntries.SlugEntry.Append | internal/registry/registry.go:307 | in place while there is room, else in a new array; the slice is the old one and the event |
| SlugEntries.SlugEntry.Evict | internal/registry/registry.go:296-298 | a new array holds the window without its oldest event |
| SlugEntries.SlugEntry.Clear | internal/registry/registry.go:248-250 | the window is empty, the entry dirty, the backing array kept |
| SlugEntries.SlugEntry.GetEvents | internal/registry/registry.go:233-236 | a fresh copy of the window |
| SlugEntries.SlugEntry.TakePending | internal/registry/persistence.go:92-121 | a fresh copy of exactly the unflushed events as rows; the eviction count starts over |
| SlugEntries.SlugEntry.Acknowledge | internal/registry/persistence.go:37-38 | the counters become what `AckEntry` says and nothing else changes |
| SlugEntries.SlugEntry.Perform | internal/registry/registry.go:239-318 | any sequence of operations has the effect of their specifications in turn and writes to no array handed out before |
| SlugEntries.HandedOutSliceIsStable | internal/registry/registry.go:224-237 | what `GetEvents` returned reads the same after any later operations |
| SlugEntries.CollectedRowsAreStable | internal/registry/persistence.go:105-121 | the rows copied for a flush read the same after any later operations |
| Stores.Store.InsertSlug | internal/store/store.go:71-81 | the slug row is inserted or replaced, or on error nothing changes |
| Stores.Store.InsertEvents | internal/store/store.go:83-114 | all rows are appended in order, or on error none; an empty batch always succeeds |
| Stores.Store.LoadSlugs | internal/store/store.go:116-142 | exactly the unexpired slugs, each once |
| Stores.Store.LoadEvents | internal/store/store.go:144-170 | exactly the rows after the cutoff, in insertion order |
| Stores.Store.DeleteExpired | internal/store/store.go:172-206 | exactly the expired slugs and their rows are gone, or on error nothing |
| Stores.Store.DeleteSlug | internal/store/store.go:208-229 | exactly one slug and its rows are gone, or on error nothing |
| Registry.Registry.CreateSlug | internal/registry/registry.go:81-110 | the first drawn ID that is free gets a new entry, and no existing entry is replaced; with no free draw nothing changes |
| Registry.Registry.RecordEvent | internal/registry/registry.go:281-318 | one known slug's entry records, all others are untouched |
| Registry.Registry.ClearEvents | internal/registry/registry.go:239-253 | one known slug's entry is cleared, all others are untouched |
| Registry.Registry.GetEvents | internal/registry/registry.go:224-237 | a fresh copy of the slug's window, empty for an unknown slug |
| Registry.Registry.DeleteSlug | internal/registry/registry.go:126-137 | one slug is gone, all others are untouched |
| Registry.Registry.Cleanup | internal/registry/registry.go:255-279 | exactly the expired entries are gone; the result counts them |
| Registry.Registry.CollectDirtySnapshots | internal/registry/persistence.go:81-127 | one snapshot for each dirty entry and no other, with its slug, its unflushed events and its length |
| Registry.Registry.FlushTo | internal/registry/persistence.go:22-43 | uninterrupted: each written slug is stored, its rows grow by exactly its unflushed events and it is clean, all others keep rows and windows; without error nothing is dirty afterwards; with nothing dirty nothing is written |
| Registry.Registry.EarliestOf | internal/registry/persistence.go:132-137 | the earliest creation time, or the clock when that is earlier |
| Registry.Registry.GroupEvents | internal/registry/persistence.go:144-152 | each slug's group is its rows' events in row order |
| Registry.Registry.LoadFrom | internal/registry/persistence.go:46-79 | every unexpired stored slug is restored from its rows after the shared cutoff; on error nothing changes |
| Registry.InstalledTable | internal/registry/persistence.go:62-74 | installing loaded slugs one by one gives the map that a restart of the state machine builds |
| Housekeeping.Tick | cmd/tripflare/main.go:226-237 | whatever fails, a tick keeps memory and store agreed on the slugs; if nothing fails, nothing is dirty or expired, and the stored slugs are those in memory, their rows grown by what was pending |
| Housekeeping.TickSettles | cmd/tripflare/main.go:226-237 | flush, cleanup and purge in this order leave exactly the live slugs, clean and stored |
| Housekeeping.DeleteAgrees | internal/httpserver/handlers.go:145-151 | dropping a slug from memory keeps the agreement if and only if the store erased it, never held it, or it is expired |
| Housekeeping.HandleDeleteSlug | internal/httpserver/handlers.go:140-154 | only the owner deletes; registry and store change as each half says; the agreement survives exactly under the condition above |
| RateLimit.RefillIs | internal/ratelimit/ratelimit.go:103-119 | refilling adds what accrued since, capped |
| RateLimit.RefillComposes | internal/ratelimit/ratelimit.go:103-119 | two refills are one, so polling is neutral |
| RateLimit.FullAfterWindow | internal/ratelimit/ratelimit.go:103-119 | a bucket left alone for a window is full |
| RateTraces.AllowIsAtomic | internal/ratelimit/ratelimit.go:43-66 | allowed exactly when every tier holds a token; then one is taken from each, otherwise none from any; other keys keep their levels at all times |
| RateTraces.CollectKeepsLevels | internal/ratelimit/ratelimit.go:68-78 | collecting after at least every window changes no level of any key |
| RateTraces.RateBound | internal/ratelimit/ratelimit.go:43-66 | in every trace, for every key, tier and interval of length d: allowed calls times window is at most capacity times (window + d), collections included |
| RateTraces.WiredRateBound | cmd/tripflare/main.go:131-133 | the same for one tier of a minute and collections of an hour |
| RateTraces.DeniedCallsChangeNothing | internal/ratelimit/ratelimit.go:55-59 | leaving denied calls, collections and other keys out of a trace changes no remaining verdict |
| RateTraces.CollectionsAndOtherKeysChangeNothing | internal/ratelimit/ratelimit.go:68-101 | a trace with collections and other keys' calls inserted anywhere has the verdicts of the trace without |
| GcAge.YoungCollectionShows | internal/ratelimit/ratelimit.go:68-78 | for one tier, any younger collection (by more than a tick) changes the verdicts of some trace |
| GcAge.KeysAreRecent | internal/ratelimit/ratelimit.go:68-78 | after any trace the limiter holds exactly the keys whose latest call no collection since found older than its age, each with the time of that call |
| Limiter.Limiter.Allow | internal/ratelimit/ratelimit.go:43-66 | the object with its shared entries and in-place buckets does what `RateLimit.Allow` says |
| Limiter.Limiter.GC | internal/ratelimit/ratelimit.go:68-78 | exactly the keys not used since the cutoff are gone |
| Limiter.Limiter.GetOrCreateEntry | internal/ratelimit/ratelimit.go:80-101 | an existing entry is kept, a new one is full |
| Channels.SendsToEach | internal/registry/registry.go:310-315 | sending to distinct open channels panics on none and offers the event to each once |
| Channels.ClosesEach | internal/registry/registry.go:126-135 | closing distinct open channels panics on none and closes each once |
| Channels.FaithfulOffer | internal/registry/registry.go:310-315 | a channel's accepted events are the offered ones that found room, in order, before and after a send |
| PubSubSafety.ChannelsLiveAndDieOnce | internal/registry/registry.go:320-358 | in every run no channel is closed twice or sent to after close; it is open exactly when an entry lists it, and it is listed once in one entry |
| PubSubSafety.RecordReachesSubscribers | internal/registry/registry.go:310-315 | in every run a record puts its event at the end of the buffer of every open channel of its slug in which fewer than 64 wait, and touches no other channel |
| PubSubSafety.SubscribeOpens | internal/registry/registry.go:320-335 | in every run a subscription to a registered slug is open and empty with room for 64, to any other closed |
| PubSubSafety.UnsubscribeCloses | internal/registry/registry.go:337-355 | in every run, and however often it was called before, unsubscribing never panics and leaves that channel closed and every other as it was |
| PubSubSafety.RemoveClosesAll | internal/registry/registry.go:126-137 | in every run removing a slug closes all of its channels and no other |
| Histories.WindowsOfRun | internal/registry/registry.go:224-237 | in every run a slug is registered exactly if it was created and not removed since, and its window is the newest `max` calls since, or since the latest clear, read off the steps |
| Histories.LogOfRun | internal/registry/registry.go:281-318 | in every run the log holds for each slug exactly the calls made while it was registered |
| Histories.HistoryOfRun | internal/httpserver/server.go:293-294 | in every run the history of a stream is the newest `max` calls of its slug since its creation or latest clear, before the step that took it, read off the steps |
| Histories.ClientHasAll | internal/httpserver/server.go:293-294 | a client that missed nothing has exactly the window's calls at the time of its history and every call recorded for the slug since, read off the steps; it missed nothing exactly under the condition below |
| Streams.StreamIsFaithful | internal/httpserver/sse.go:27-63 | in every run a client has seen its history (`Histories.HistoryOfRun` says what it holds) and then a prefix of the accepted events, each once, in record order, enriched as by a lookup; a close comes last and only after all accepted events |
| Streams.StreamMissesNothing | internal/httpserver/server.go:293-294 | in every run, a client has been sent its history and everything recorded for the slug since if and only if nothing was recorded between history and subscription, every offered event found room and was taken, and everything since was offered, which holds while the channel is open |
| Streams.GapIsNeverDelivered | internal/httpserver/server.go:293-294 | what is recorded between history and subscription is never delivered |
| Streams.GapLosesAnEvent | internal/httpserver/server.go:293-294 | a run in which an event of the slug falls into the gap, is in the window, and is not in the stream |
| Turns.FramesAt | internal/httpserver/sse.go:40-63 | up to the turn that ends the loop, each turn writes one frame at its own position, a received event enriched as by a lookup or a heartbeat; the ending turn writes a close if the channel ended and nothing if the request did |
| Turns.MachineWritesFrames | internal/httpserver/sse.go:15-64 | whatever a run does, a stream has written its history and then the frames of the turns that the run's pulls, beats and hang-up gave it: exactly what the loop writes |
| Turns.DrainDelivers | internal/httpserver/sse.go:40-54 | in every run, a stream that takes as many turns as events wait has written its history and every event that found room; one more turn on a closed channel announces the close |
| Hub.Hub.Register | internal/registry/registry.go:106 | a new slug starts without subscribers |
| Hub.Channel.TrySend | internal/registry/registry.go:311-314 | the event is buffered if there is room and dropped otherwise |
| Hub.Hub.Publish | internal/registry/registry.go:310-315 | every subscriber of the slug is offered the event once |
| Hub.Hub.CloseSlug | internal/registry/registry.go:126-135 | every subscriber is closed once and the slug is gone |
| Hub.Hub.Subscribe | internal/registry/registry.go:320-335 | a new listed channel, or a closed one for an unknown slug |
| Hub.Hub.Unsubscribe | internal/registry/registry.go:337-355 | a channel still listed is closed and unlisted, the others staying in order; otherwise nothing happens, however often it is called |
| Hub.EnrichEvent | internal/httpserver/handlers.go:124-138 | with a sound cache the result is the lookup's, and the cache stays sound |
| Hub.WriteHistory | internal/httpserver/sse.go:30-33 | one data frame for each event of the history, in order, each enriched as by a lookup |
| Hub.StreamEvents | internal/httpserver/sse.go:27-63 | the loop writes the frames of the history and then those of its turns, as the machine does (`Turns.MachineWritesFrames`); `Turns.FramesAt` says which these are |
| SlugIds.GenerateSlugID | internal/registry/registry.go:360-378 | the loop pads and cuts as the specification says |
| SlugIds.SlugIdDecodes | internal/registry/registry.go:366-375 | five bytes give eight base-36 digits that decode to their number; the cut is never taken |
| SlugIds.SlugIdIs | internal/registry/registry.go:360-378 | the ID by its characters: eight of `0` to `9` and `a` to `z`, most significant first, whose value is that of the five bytes, most significant first |
| SlugIds.SlugIdsAreInjective | internal/registry/registry.go:360-378 | different bytes give different IDs |
| Hosts.DnsSlugIs | internal/dns/server.go:275-288 | the DNS side reads a slug off a name if and only if it is the dot-free label right below the domain, after any prefix |
| Hosts.DnsSlugOnTheWire | internal/dns/server.go:275-288 | on wire names, which end in a dot, with the domain configured with or without its own |
| Hosts.LowerIs | internal/dns/server.go:131 | lower-casing gives the one name without characters 65 to 90 that differs from the given one only by 32 in such characters |
| Hosts.HttpSlugIs | internal/httpserver/server.go:344-356 | the HTTP side reads a slug off a host if and only if the host without its port is that one label below the domain |
| Hosts.ExtractorsAgree | internal/httpserver/server.go:344-356 | what the HTTP side reads off a lower-case host is what the DNS side reads off the question for it, for every domain that is not empty |
| Hosts.HttpFindsUnprefixed | internal/dns/server.go:282-285 | of names the DNS side accepts, the HTTP side accepts exactly those without a prefix |
| Hosts.GeneratedIdsSurvive | internal/registry/registry.go:360-378 | every generated ID comes back from both extractors, with any prefix or port |
| Hosts.LimitKeysAreInjective | internal/httpserver/server.go:304 | address and slug can be told apart in a limiter key, colons in the address or not |
| Questions.ChallengeQuestionsAreNoHits | internal/dns/server.go:133-147 | a TXT question for a slug's challenge name is never recorded, the same name asked for another type is |
| Questions.CaseMakesNoDifference | internal/dns/server.go:131-147 | two questions of one type whose names differ only in letter case have the same class, hit and TXT records |
| Questions.SlugQuestionsAreHits | internal/dns/server.go:133-147 | a question for "slug.domain.", in any case, is recorded for the lower-case slug if that is registered, whatever the type (a slug that is the challenge label is none when asked for TXT) |
| Questions.ApexQuestions | internal/dns/server.go:133-140 | the domain itself, in any case and of any type, is answered and never recorded |
| Questions.ForeignQuestions | internal/dns/server.go:131-157 | a name that does not end in the domain is neither answered nor recorded |
| Questions.BothChallengesAreAnswered | internal/dns/server.go:159-172 | after presenting two values for the domain's challenge name, a TXT question for it in any case is answered with both, after what was served before, and not recorded |
| Questions.TextsConcat | internal/dns/server.go:123-157 | the TXT records of a message are those of its questions one after the other, each as if it were alone |
| Questions.EventsForConcat | internal/dns/server.go:123-157 | so are the events recorded for a slug |
| Questions.WindowAfterMessage | internal/registry/registry.go:290-308 | a message leaves in a slug's window the newest `max` of what was there and what it records, in the order of the questions, and none of its record calls panics |
| FrontEnds.HandleQuery | internal/dns/server.go:123-157 | each registered slug has recorded one event per question that hits it, in order; TXT records are those of the challenge questions; the reply is a name error exactly when no question is the server's or a challenge finds nothing |
| FrontEnds.AnswerChallenge | internal/dns/server.go:159-172 | as many records as values are served for the name; record i carries the name and value i |
| FrontEnds.HandleTripflare | internal/httpserver/server.go:300-308 | only a registered slug costs a token, of the caller's own pair; the event is recorded exactly when allowed |
| Challenges.StoreServesWhatIsOwed | internal/acme/challenge.go:23-45 | in every run a name serves as many copies of each value as presentings minus effective clean-ups, the latest ones, in order of presenting; a name owed nothing has no key |
| Challenges.NamesAreIndependent | internal/acme/challenge.go:23-45 | what is served for a name does not depend on other names |
| Challenges.CleanUpUndoesPresent | internal/acme/provider.go:17-31 | cleaning up after presenting keeps the values' counts, and restores the table if and only if nothing but that value follows its first copy |
| Challenges.ApexAndWildcardShareAName | internal/acme/challenge.go:23-52 | two values at one name (section 8.4 of RFC 8555) are served together, and cleaning up in either order serves the other until the end and restores the table |
| ChallengeStores.ChallengeStore.Set | internal/acme/challenge.go:23-28 | the value is appended to the name's slice, in place or in a new array |
| ChallengeStores.ChallengeStore.Shift | internal/acme/challenge.go:37 | the later values move down in the same array |
| ChallengeStores.ChallengeStore.Delete | internal/acme/challenge.go:30-45 | the first copy is gone, and the key with the last value |
| ChallengeStores.ChallengeStore.GetTXT | internal/acme/challenge.go:47-52 | a fresh copy of the values in order |
| ChallengeStores.AnswerIsStable | internal/acme/challenge.go:47-52 | what `GetTXT` returned reads the same after any later operations, in-place removals included |

## Left out

- SQLite, its SQL text, migrations and the write-ahead log: the store is two tables whose operations commit or change nothing.
- Stores.Store.LoadEvents: the query has no ORDER BY; the method and the runs from `Orderly` on take insertion order, while `AnyRun` and `NoClearMidFlush` runs take rows in any order.
- RateTraces.RateBound: the code counts tokens in float64; the proof is of the exact arithmetic over real numbers, and says nothing about rounding.
- RateTraces.CollectKeepsLevels: takes collection ages of at least the longest window less one clock tick, and sound tiers (capacity not negative, window positive), which the program does not validate.
- ExactlyOnce.ExactlyOncePersistence: takes one flush at a time as given; `OverlapRepeats` says what two do.
- Agreement.StoreAndMemoryAgree: takes a delete's two halves as one step and apart from the slug's own flush; between the halves the store still has what memory has not. `DeleteRaces` has the halves apart, during a flush and outside one.
- Housekeeping.HandleDeleteSlug: stated for calls that nothing interrupts; `DeleteRaces` has the interleaving with a flush. A server without a store, for which the second half is skipped, is not modelled.
- Registry.Registry.FlushTo: stated for a flush that nothing interrupts; interleavings are the state machine's.
- Subscribers are part of the entry in the program; here `Hub` and `PubSub` keep them beside it, and `Registry` has entries without them.
- Locks and goroutines: a critical section is one step or one method call.
- Clock readings, random bytes, drawn IDs and store outcomes are parameters or nondeterministic; whether the ID loop ends is not considered.
- `Event.no`, `Entry.gen` and `Snapshot.mark` are identities that the program does not have and no operation branches on.
- Event data is opaque: its JSON encoding and the building of it in `RecordDNS` and `RecordHTTP` are not modelled.
- DNS and HTTP wire formats, A, AAAA, NS and SOA answers, client subnets, listeners, TLS and shutdown.
- Lower-casing is that of ASCII, and names are sequences of characters.
- ListSlugs, SlugCount, EventCount, authentication, path routing, pixels, the web pages, configuration and GeoIP lookups: no state to keep consistent.
- ACME issuance, certificates and account keys: outside calls and file system.
