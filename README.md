# Way2WayFabric: waystones to minimap waypoints

Way2WayFabric is a Fabric mod that mirrors the waystones of a waystone mod
(BlayWaystones, FabricWaystones) as waypoints of the Xaero minimap. This
project is a Dafny model of the mod's core, `Way2WayFabric.kt`:

- **Records and tags** (`waystones.dfy`, module `Waystones`):
  - the `GenericWaystone` record and the waypoint it becomes;
  - the table of provider tags (the waypoint "symbol") and `symbol(idx)`;
  - coordinate matching, the dimension test and `updateWaypoint`'s refresh.
- **The world's waypoint sets** (`waypoint_sets.dfy`, module `WaypointSets`):
  - a world is a sequence of waypoint lists;
  - a `WaypointContext` (a waypoint plus its set) is a location `Loc(setIdx, pos)`;
  - `allWay2way` and `allModWaypoints` select a provider's waypoints and their locations;
  - removing a batch of contexts keeps the waypoints at every other location.
- **The reconciliation engine as functions** (`reconcile.dfy`, module `Reconcile`):
  - what `syncAllWaystones`, `syncWaystone`, `removeWaystone` and `removeAllWaystones` leave behind;
  - whether each of them calls `saveAllWaypoints`;
  - the proofs of what those operations promise: convergence, idempotence, upsert and removal.
- **The handler operations as imperative code** (`manager.dfy`, module `Handler`):
  - a `WaypointsManager` class whose sets the operations change in place;
  - methods with the source's loops;
  - each method is proved to leave exactly the state the functions of `Reconcile` describe.
- **The readiness gate** (`watcher.dfy`, module `Watcher`):
  - `MapWatcher` queues handler calls until the minimap's manager has a current world;
  - it rechecks on a timer and gives up once more than 24 rechecks have failed (at the 26th check, after 25 failures);
  - the gate is modelled as step functions over its state, with runs of inputs and a `MapWatcher` class.
- **Provider numbering** (`providers.dfy`, module `Providers`): the index each registered waystone mod stamps on its records, as `onInitialize` assigns it.

All of it lives in one source file,
`src/main/kotlin/com/jramsay/way2wayfabric/Way2WayFabric.kt`.

Behaviour of the code worth stating plainly:

- **Duplicate records.** Two records at the same coordinates in one `syncAllWaystones` call are handled one after another by the loop at `Way2WayFabric.kt:259-268`. The first record matches the existing waypoint and updates it, and that context leaves the unmatched list. The second finds no unmatched waypoint left and is added as a second waypoint. `Reconcile.SyncAllFreshWorld` states this for a world without the provider's waypoints.
- **Giving up.** At `Way2WayFabric.kt:176-181` the give-up branch only sets `running` to false and returns. Its log text at line 178 says the deferred events are discarded, but `deferred` is kept. See Findings.
- **After giving up.** `count` is reset only after a successful drain (`Way2WayFabric.kt:200`). Once more than 24 rechecks have failed, `defer` returns at line 161 without queuing, so a later call is dropped.

## Model

| member | source | states |
|---|---|---|
| Waystones.NegativeIndexSharesFirstTag | src/main/kotlin/com/jramsay/way2wayfabric/Way2WayFabric.kt:46-51 | any negative provider index is given the first tag, the same tag as index 0 |
| Waystones.TagsDistinct | src/main/kotlin/com/jramsay/way2wayfabric/Way2WayFabric.kt:44-51 | two indices in range 0..3 have the same tag exactly when they are equal |
| Waystones.RefreshSpec | src/main/kotlin/com/jramsay/way2wayfabric/Way2WayFabric.kt:120-133 | updateWaypoint changes the waypoint exactly when the name or the tag differs; afterwards the name and tag are the record's and the coordinates are untouched; after a refresh no further update is needed; a waypoint at the record's spot becomes exactly the record's waypoint |
| Waystones.SameDimension | src/main/kotlin/com/jramsay/way2wayfabric/Way2WayFabric.kt:257-259 | the records kept are records of the list, all of the given dimension, and no more of them than the list holds |
| Waystones.SameDimensionKeeps | src/main/kotlin/com/jramsay/way2wayfabric/Way2WayFabric.kt:81-83 | a record survives the dimension filter exactly when it is in the list and in the current dimension |
| Waystones.SameDimensionIdempotent | src/main/kotlin/com/jramsay/way2wayfabric/Way2WayFabric.kt:257-259 | filtering an already filtered list changes nothing |
| Waystones.SameDimensionAppend | src/main/kotlin/com/jramsay/way2wayfabric/Way2WayFabric.kt:257-259 | filtering a concatenation filters each part |
| WaypointSets.TaggedPartition | src/main/kotlin/com/jramsay/way2wayfabric/Way2WayFabric.kt:106-112 | allWay2way keeps exactly the list's waypoints with the provider's tag; with the untagged rest they make up the whole list as a multiset |
| WaypointSets.TaggedLocsIn | src/main/kotlin/com/jramsay/way2wayfabric/Way2WayFabric.kt:110-112 | the contexts of one set are exactly its positions holding the tag, in list order, and pointwise they hold allWay2way's waypoints |
| WaypointSets.OwnedLocs | src/main/kotlin/com/jramsay/way2wayfabric/Way2WayFabric.kt:85-87 | allModWaypoints lists every location in the world whose waypoint carries the tag, each exactly once, and nothing else |
| WaypointSets.ValuesOwnedLocs | src/main/kotlin/com/jramsay/way2wayfabric/Way2WayFabric.kt:85-87 | the waypoints behind allModWaypoints' contexts are the flat concatenation of every set's allWay2way, in order |
| WaypointSets.OwnedLocsCount | src/main/kotlin/com/jramsay/way2wayfabric/Way2WayFabric.kt:85-87 | there are as many contexts as tagged waypoints |
| WaypointSets.Put | src/main/kotlin/com/jramsay/way2wayfabric/Way2WayFabric.kt:126-130 | the in-place edit of one waypoint changes that location and no other, and keeps every set's length |
| WaypointSets.RemoveLocs | src/main/kotlin/com/jramsay/way2wayfabric/Way2WayFabric.kt:68-70 | removing a batch of contexts keeps the number of sets, and each set keeps, in order, exactly the waypoints at locations outside the batch |
| WaypointSets.ReleaseLoc | src/main/kotlin/com/jramsay/way2wayfabric/Way2WayFabric.kt:68-70 | leaving one tagged location out of a removal keeps exactly that waypoint among the provider's waypoints |
| WaypointSets.RemoveAllTagged | src/main/kotlin/com/jramsay/way2wayfabric/Way2WayFabric.kt:329 | removing every tagged location leaves the provider no waypoint |
| WaypointSets.OwnedAppendTo | src/main/kotlin/com/jramsay/way2wayfabric/Way2WayFabric.kt:114-118 | appending waypoints to a set adds exactly the tagged ones among them to the provider's waypoints |
| WaypointSets.OwnedAppendOne | src/main/kotlin/com/jramsay/way2wayfabric/Way2WayFabric.kt:114-118 | addWaypointFor adds exactly its one waypoint to the provider's waypoints and leaves every untagged waypoint where it was |
| WaypointSets.OwnedPutOne | src/main/kotlin/com/jramsay/way2wayfabric/Way2WayFabric.kt:126-130 | an in-place refresh of a tagged waypoint swaps the old waypoint for the new one among the provider's waypoints and leaves untagged waypoints alone |
| WaypointSets.KeptInExactlyTagged | src/main/kotlin/com/jramsay/way2wayfabric/Way2WayFabric.kt:329 | removing exactly the tagged positions of a set leaves its untagged waypoints, in order |
| Reconcile.FindMatch | src/main/kotlin/com/jramsay/way2wayfabric/Way2WayFabric.kt:89-91 | find returns the first context whose waypoint is at the record's coordinates, and nothing exactly when no context is |
| Reconcile.FindMatchSameSpots | src/main/kotlin/com/jramsay/way2wayfabric/Way2WayFabric.kt:98-104 | matching looks at coordinates only: worlds that agree on which contexts match give the same answer |
| Reconcile.FindMatchOwned | src/main/kotlin/com/jramsay/way2wayfabric/Way2WayFabric.kt:89-91 | findExistingFor finds a context exactly when some waypoint with the record's tag stands at its coordinates |
| Reconcile.RemoveAtSpec | src/main/kotlin/com/jramsay/way2wayfabric/Way2WayFabric.kt:267 | existing.remove(found) takes exactly the found context out of a duplicate-free list |
| Reconcile.StepTracks | src/main/kotlin/com/jramsay/way2wayfabric/Way2WayFabric.kt:259-268 | one iteration keeps the loop invariant: the tagged waypoints outside the unmatched contexts, together with the staged records' waypoints, are exactly the waypoints of the records handled so far; the unmatched contexts are distinct and tagged; untagged waypoints are as they were |
| Reconcile.FoldTracks | src/main/kotlin/com/jramsay/way2wayfabric/Way2WayFabric.kt:257-269 | the whole loop keeps that invariant |
| Reconcile.Finish | src/main/kotlin/com/jramsay/way2wayfabric/Way2WayFabric.kt:270-277 | adding the staged records and removing the unmatched contexts turns the invariant into the result: the provider's waypoints are the records handled and untagged waypoints are as they were |
| Reconcile.SyncAllConverges | src/main/kotlin/com/jramsay/way2wayfabric/Way2WayFabric.kt:248-284 | after syncAllWaystones the provider's waypoints are, as a multiset, exactly the waypoints of the records of the current dimension; every waypoint of another provider or of the player stays in its set, in order |
| Reconcile.FoldWritesOnlyWhenCounting | src/main/kotlin/com/jramsay/way2wayfabric/Way2WayFabric.kt:259-268 | the loop changes a waypoint only when it counts a change, and the count never decreases |
| Reconcile.SyncAllUnsavedOnlyAdds | src/main/kotlin/com/jramsay/way2wayfabric/Way2WayFabric.kt:270-282 | a pass that does not save has only appended to the current set: no other set changed and the current set's old contents are a prefix of the new |
| Reconcile.FoldUnmatched | src/main/kotlin/com/jramsay/way2wayfabric/Way2WayFabric.kt:259-262 | with no context to match, every record is staged as new |
| Reconcile.SyncAllFreshWorld | src/main/kotlin/com/jramsay/way2wayfabric/Way2WayFabric.kt:248-284 | with none of the provider's waypoints in the world, the pass appends one waypoint per record of the dimension to the current set, duplicates included, and does not save |
| Reconcile.FoldInSync | src/main/kotlin/com/jramsay/way2wayfabric/Way2WayFabric.kt:257-269 | when the unmatched waypoints already are the records' waypoints (records at distinct spots), the loop writes nothing, stages nothing and matches every context |
| Reconcile.SyncAllInSync | src/main/kotlin/com/jramsay/way2wayfabric/Way2WayFabric.kt:248-284 | a world that already holds exactly the records' waypoints is left unchanged and not saved |
| Reconcile.SyncAllIdempotent | src/main/kotlin/com/jramsay/way2wayfabric/Way2WayFabric.kt:248-284 | a second syncAllWaystones with the same records changes nothing and does not save |
| Reconcile.SyncAllIgnoresOtherDimensions | src/main/kotlin/com/jramsay/way2wayfabric/Way2WayFabric.kt:257-259 | inserting a record of another dimension anywhere in the list does not change the outcome |
| Reconcile.SyncOneUpserts | src/main/kotlin/com/jramsay/way2wayfabric/Way2WayFabric.kt:286-307 | outside the dimension nothing happens; inside it the record's waypoint is afterwards among the provider's waypoints; with no match exactly that waypoint is added, with a match at most the matched waypoint is replaced; untagged waypoints stay; it saves exactly when the world changed |
| Reconcile.SyncOneIdempotent | src/main/kotlin/com/jramsay/way2wayfabric/Way2WayFabric.kt:286-307 | a second syncWaystone with the same record changes nothing and does not save |
| Reconcile.RemoveOneSpec | src/main/kotlin/com/jramsay/way2wayfabric/Way2WayFabric.kt:309-324 | outside the dimension nothing happens; inside it exactly one waypoint with the record's tag and coordinates goes when there is one, and it saves exactly then; nothing else changes |
| Reconcile.RemoveAllSpec | src/main/kotlin/com/jramsay/way2wayfabric/Way2WayFabric.kt:326-335 | every set keeps exactly its waypoints without the provider's tag, in order; it saves exactly when the provider had a waypoint |
| Handler.WaypointsManager.constructor | src/main/kotlin/com/jramsay/way2wayfabric/Way2WayFabric.kt:151-157 | a ready manager has a current world whose current set is one of its sets; nothing has been saved yet |
| Handler.WaypointsManager.SaveAllWaypoints | src/main/kotlin/com/jramsay/way2wayfabric/Way2WayFabric.kt:281 | a save changes no waypoint and counts one write |
| Handler.WaypointsManager.AddWaypointFor | src/main/kotlin/com/jramsay/way2wayfabric/Way2WayFabric.kt:114-118 | the record's waypoint is appended to the chosen set, nothing else changes |
| Handler.WaypointsManager.UpdateWaypoint | src/main/kotlin/com/jramsay/way2wayfabric/Way2WayFabric.kt:120-133 | returns true exactly when the waypoint needed the record's name or tag and the sets changed; afterwards the waypoint carries both and still matches the record iff it did before |
| Handler.SyncAllWaystones | src/main/kotlin/com/jramsay/way2wayfabric/Way2WayFabric.kt:252-283 | the manager's sets end as Reconcile.SyncAll says and one save is counted exactly when SyncAll saves |
| Handler.MatchAll | src/main/kotlin/com/jramsay/way2wayfabric/Way2WayFabric.kt:254-269 | the loop's final existing list, staged records, change count and sets are those of the specification fold |
| Handler.MatchOne | src/main/kotlin/com/jramsay/way2wayfabric/Way2WayFabric.kt:260-268 | one record of the loop ends exactly as one step of the specification fold: a record without a matching context is staged; otherwise the first match is brought up to date, counted when it changed, and leaves the unmatched contexts |
| Handler.CompletePass | src/main/kotlin/com/jramsay/way2wayfabric/Way2WayFabric.kt:270-282 | after the loop, the staged records are added, the unmatched contexts removed, and one save is counted exactly when something changed or was removed, as Reconcile.Complete says |
| Handler.AddAll | src/main/kotlin/com/jramsay/way2wayfabric/Way2WayFabric.kt:270-275 | the staged records' waypoints are appended, in order, to the current set |
| Handler.RemoveEach | src/main/kotlin/com/jramsay/way2wayfabric/Way2WayFabric.kt:277 | removing each context removes exactly the listed locations and counts them all |
| Handler.SyncWaystone | src/main/kotlin/com/jramsay/way2wayfabric/Way2WayFabric.kt:287-306 | the manager ends as Reconcile.SyncOne says, one save counted exactly when it saves |
| Handler.RemoveWaystone | src/main/kotlin/com/jramsay/way2wayfabric/Way2WayFabric.kt:310-323 | the manager ends as Reconcile.RemoveOne says, one save counted exactly when it saves |
| Handler.RemoveAllWaystones | src/main/kotlin/com/jramsay/way2wayfabric/Way2WayFabric.kt:327-334 | the manager ends as Reconcile.RemoveAll says, one save counted exactly when it saves |
| Handler.Apply | src/main/kotlin/com/jramsay/way2wayfabric/Way2WayFabric.kt:248-335 | a handler call keeps the dimension, the current set and the number of sets, and saves at most once |
| Handler.ApplyAll | src/main/kotlin/com/jramsay/way2wayfabric/Way2WayFabric.kt:196-198 | draining n calls keeps the world's shape and saves at most n times |
| Handler.ApplyAllAppend | src/main/kotlin/com/jramsay/way2wayfabric/Way2WayFabric.kt:196-198 | draining a + b is draining a, then b |
| Handler.Dispatch | src/main/kotlin/com/jramsay/way2wayfabric/Way2WayFabric.kt:197 | running a deferred call against the manager does what Apply says |
| Handler.DispatchAll | src/main/kotlin/com/jramsay/way2wayfabric/Way2WayFabric.kt:196-198 | running the queued calls one after another leaves the manager as ApplyAll says for the queue in order |
| Watcher.RunsAtOnceIff | src/main/kotlin/com/jramsay/way2wayfabric/Way2WayFabric.kt:141-149 | a call runs immediately, leaving the watcher unchanged, exactly when the manager is ready and nothing is queued |
| Watcher.StepKeepsOrder | src/main/kotlin/com/jramsay/way2wayfabric/Way2WayFabric.kt:140-202 | before giving up, one call or timer loses nothing: calls run followed by calls queued are the previously queued calls followed by the new one |
| Watcher.RunKeepsOrder | src/main/kotlin/com/jramsay/way2wayfabric/Way2WayFabric.kt:140-202 | over any run too short to reach the give-up, every call is either run or still queued, in arrival order |
| Watcher.BacklogDrains | src/main/kotlin/com/jramsay/way2wayfabric/Way2WayFabric.kt:195-201 | the first call made when the manager is ready runs the whole backlog and then itself, in order, leaving an empty queue |
| Watcher.ReadyRunsBacklog | src/main/kotlin/com/jramsay/way2wayfabric/Way2WayFabric.kt:141-149 | a call made while the manager is ready runs after every queued call and leaves nothing queued |
| Watcher.FailedCheckCounts | src/main/kotlin/com/jramsay/way2wayfabric/Way2WayFabric.kt:183-193 | a failed check before the threshold counts one attempt, schedules one timer and keeps the queue |
| Watcher.SubmitsWhileNotReady | src/main/kotlin/com/jramsay/way2wayfabric/Way2WayFabric.kt:159-166 | n calls before the manager is ready queue n calls and count n failed checks and n timers, running nothing |
| Watcher.TicksAfterGiveUp | src/main/kotlin/com/jramsay/way2wayfabric/Way2WayFabric.kt:175-182 | once given up, timers that find the manager not ready run nothing and leave the count; as written they keep the queue |
| Watcher.GiveUpPrefixReached | src/main/kotlin/com/jramsay/way2wayfabric/Way2WayFabric.kt:168-193 | 25 calls before readiness and their 25 failed rechecks reach the given-up state with no timer left; as written all 25 calls stay queued, as intended none does |
| Watcher.GiveUpWedges | src/main/kotlin/com/jramsay/way2wayfabric/Way2WayFabric.kt:141-182 | as written, a watcher that gave up with calls still queued and no timer pending runs nothing ever again, whatever arrives |
| Watcher.AsWrittenDropsLaterCalls | src/main/kotlin/com/jramsay/way2wayfabric/Way2WayFabric.kt:141-182 | as written, after the give-up prefix no later call ever runs, even once the manager is ready |
| Watcher.IntendedRecovers | src/main/kotlin/com/jramsay/way2wayfabric/Way2WayFabric.kt:176-182 | with the queue discarded on giving up, a call made once the manager is ready runs at once |
| Watcher.MapWatcher.constructor | src/main/kotlin/com/jramsay/way2wayfabric/Way2WayFabric.kt:135-138 | a new watcher has an empty queue, no chain running, no failed check and no timer |
| Watcher.MapWatcher.GivenUp | src/main/kotlin/com/jramsay/way2wayfabric/Way2WayFabric.kt:168-170 | true exactly when more than 24 checks have failed |
| Watcher.MapWatcher.WhenReady | src/main/kotlin/com/jramsay/way2wayfabric/Way2WayFabric.kt:140-149 | the watcher moves as the whenReady step says and the manager changes exactly by the calls that step runs |
| Watcher.MapWatcher.Defer | src/main/kotlin/com/jramsay/way2wayfabric/Way2WayFabric.kt:159-166 | the watcher moves as the defer step says, and the manager changes exactly by the calls it runs |
| Watcher.MapWatcher.TimerFires | src/main/kotlin/com/jramsay/way2wayfabric/Way2WayFabric.kt:190-192 | a pending timer fires a recheck as written (a given-up watcher keeps its queue); with none pending nothing happens |
| Watcher.MapWatcher.RecheckMapReady | src/main/kotlin/com/jramsay/way2wayfabric/Way2WayFabric.kt:172-202 | the watcher moves as the recheck step as written says: not ready and given up, the chain stops and the queue and count are kept; not ready otherwise, one more failure is counted and a timer scheduled; ready, the manager ends as if the queued calls had run one after another in arrival order, and the queue and count are reset |
| Providers.AllocationTags | src/main/kotlin/com/jramsay/way2wayfabric/Way2WayFabric.kt:237-244 | with at most four providers, the i-th registered provider gets the i-th tag (a sole provider the first), so no two share a tag |
| Providers.AssignModIndices | src/main/kotlin/com/jramsay/way2wayfabric/Way2WayFabric.kt:237-244 | a sole provider gets index -1, otherwise each provider gets its position in the list |
| Providers.OnInitialize | src/main/kotlin/com/jramsay/way2wayfabric/Way2WayFabric.kt:224-246 | BlayWaystones registers before FabricWaystones when present, and the registered providers end with indices that all have tags, pairwise distinct |

## Left out

- Logging (`logger.*`) and the random waypoint colour of `toWaypoint` are not modelled: neither affects which waypoints exist or what they are called.
- `ensureCompatibleMap` is not modelled: it only logs.
- The Xaero minimap session and `mgrIfReady` are not modelled. Whether the manager is ready is an input: a `WaypointsManager?` (null when not ready) for the methods, a `ready` flag for the step functions.
- `saveAllWaypoints` writes to disk. It is modelled as a counter of saves.
- `findWay2waySet` returns the world's current set. It is modelled as the index `current`.
- `@Synchronized` and the `Timer` threads are not modelled as threads. Each timer firing is an explicit input (`Tick`, `MapWatcher.TimerFires`), and the watcher keeps a count of timers not fired yet.
- `onInitialize`'s calls to `register` and the provider objects' own code are not part of this model (BlayWaystones and FabricWaystones live in other files). Provider presence is an input.
- `Waystones.Symbol`: an index of 4 or more throws an index error in the source. The model makes the index's validity a precondition (`ValidIdx`) of every operation that reads a tag. `Providers.AllocationTags` shows the mod's own numbering stays in range for up to four providers. A queued `syncAllWaystones` call (`Handler.EventOk`) requires a valid index on every record, although the source reads the tag only of records in the current dimension; `Handler.SyncAllWaystones` itself requires it only of those records.
- `Handler.RemoveEach`: the per-context `remove()` calls of the loop are made as one batch assignment of `RemoveLocs`, so the intermediate worlds between two removals are not modelled.
- `WaypointSets.RemoveLocs`: `WaypointContext.remove` removes a waypoint by identity. The model removes by location. Contexts removed in one pass are taken out against the world as it was before the pass, so the order of removals does not matter. Waypoint identity and aliasing between two equal waypoints are not modelled.
- `Reconcile.SyncAllConverges`: requires every record of the current dimension to carry the provider's own tag, which providers always do. Records of a foreign provider passed to another provider's sync are not covered.
- `Reconcile.SyncAllUnsavedOnlyAdds`: states only that a pass without a save did nothing but append. It does not state the converse, that every save follows an update or removal.

## Findings

| source | as written | input that shows it | evidently intended | confidence | as-written member | corrected member |
|---|---|---|---|---|---|---|
| src/main/kotlin/com/jramsay/way2wayfabric/Way2WayFabric.kt:176-181 | on giving up, `recheckMapReady` logs that it is "discarding" the deferred events but keeps the queue, so `whenReady` always defers and `defer` drops every later call; nothing ever runs again | 25 handler calls while the manager is not ready, then their 25 recheck timers fire while it is still not ready; then a call arrives with the manager ready | clear the queue when giving up, as the log message says, so a later call made when the manager is ready runs | not executed | Watcher.AsWrittenDropsLaterCalls | Watcher.IntendedRecovers |
