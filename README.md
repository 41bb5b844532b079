# publish-aggregation, modelled in Dafny

`publish-aggregation` is a Meteor package that publishes the result rows of a MongoDB
aggregation pipeline as a reactive collection. Every time the pipeline is re-run, the
publication compares the new rows with what it published before and tells its subscribers
about the difference: `added` for a new row, `changed` for a row whose single compared value
moved, `removed` for a row that is gone. A row's public id is derived from the grouping key
(`_id`) of the row, so the same group keeps the same id from one run to the next. With a
trailing time window (`pastPeriod`), the pipeline's `$match` stage is given a lower time
bound on every run, and a timer re-runs the pipeline when the oldest document leaves the
window.

The model covers two versions of the package:

- the current one, under `lib/`: the id manager class, the `$match` lookup, and the
  publication built by `buildAggregator` in `lib/aggregator.js`;
- the older one, in the root `aggregator.js`.

Module layout:

| file | module | what it holds |
|---|---|---|
| `values.dfy` | `Values` | JavaScript values (`undefined`, `null`, booleans, integer numbers, strings, dates and other objects by identity), truthiness, documents as maps, `Option`/`Result` |
| `publication_id_manager.dfy` | `PublicationIds` | the id manager: the pure state `IdTables` with `Assign`/`Release`/`Cleared` and their lemmas, and the class `PublicationIdManager` specified by them |
| `utils.dfy` | `Utils` | pipeline stages (a class, since the publication writes into its `$match` stage) and `getPipelineMatchStage` |
| `reconcile.dfy` | `Reconcile` | one reconciliation pass of `lib/aggregator.js` as functions (`Step`, `AddPhase`, `AssignAll`, `Stale`, `ReleaseAll`, `Pass`), a row-by-row reference (`Rowwise`), and the lemmas about passes |
| `aggregator.dfy` | `Aggregator` | single-value field detection, the expiry delay, the observers' gating tests, the `$match` insertion of `updatePipeline`, and the class `Publication`, whose methods update its state in place and are specified by `Pass` |
| `legacy_aggregator.dfy` | `LegacyAggregator` | the root `aggregator.js`: its `getOid`, its pass, its match-stage set-up, its expiry delay, and the class `LegacyPublication` |

Modelling choices:

- A public id is a `nat`. `new Mongo.ObjectID()` is a counter that is never rewound, not
  even by `reset()`, so two mints never give the same id.
- `hash-sum` is an arbitrary function `hash: Value -> Hash`. Collisions are allowed.
- The `published` snapshot is a `map<Oid, Value>`. The "is published" test is JavaScript
  truthiness, so a stored `0`, `""`, `false` or `null` counts as unpublished, and the row
  is added again on the next pass (`Reconcile.FalsyValueIsAddedAgain`).
- A JavaScript `Date` is an object: it is known by its identity and also carries the time
  `getTime()` reads. `===` and `!==` compare identity, so two `Date`s of the same instant
  are different values (`Reconcile.NewDateIsChanged`), while `<` compares times.
- `self.added/changed/removed` become an output sequence of `Event`s.
- The removal loop walks `Object.keys(published)` in an order the model leaves open. Its
  removals are specified as an enumeration, without repeats, of the stale ids
  (`EnumeratesRemovals`).
- The aggregation results, the oldest document found by the expiry query, the current time
  and the `.pending` properties that the observers read on the throttled functions are inputs.
- The user's `transform` is an opaque function, applied only to the rows that are sent.
- The root version's `getPipelineMatchStage` (aggregator.js:15-21) is the current one
  without the test for an absent pipeline, and its single-value field detection
  (aggregator.js:52-54) applies the same two-key rule. Both are modelled once, by
  `Utils.GetPipelineMatchStage` (on a present pipeline) and
  `Aggregator.DetectSingleValueField`.

## Model

| member | source | states |
|---|---|---|
| PublicationIds.Assign | lib/PublicationIdManager/PublicationIdManager.js:10-17 | the key ends up mapped to the returned id; a known key leaves the tables as they were; an unknown key gets the next unminted id |
| PublicationIds.Release | lib/PublicationIdManager/PublicationIdManager.js:19-23 | the id leaves the reverse map, nothing else does, and the forward map only loses entries; the id source stays |
| PublicationIds.Cleared | lib/PublicationIdManager/PublicationIdManager.js:25-28 | the emptied tables are consistent and know no key; the id source stays |
| PublicationIds.PublicationIdManager.GetOid | lib/PublicationIdManager/PublicationIdManager.js:10-17 | the key of a known `_id` keeps its id and the state does not change; an unknown key gets a freshly minted id, not in use by any other key, recorded in both maps; the maps stay mutual inverses |
| PublicationIds.PublicationIdManager.RemoveOid | lib/PublicationIdManager/PublicationIdManager.js:19-23 | afterwards neither map mentions the id or its key, and the maps stay mutual inverses |
| PublicationIds.PublicationIdManager.Reset | lib/PublicationIdManager/PublicationIdManager.js:25-28 | both maps are empty afterwards; the id source is not rewound |
| PublicationIds.PublicationIdManager.constructor | lib/PublicationIdManager/PublicationIdManager.js:5-8 | a new manager starts with both maps empty |
| PublicationIds.AssignKeepsConsistent | lib/PublicationIdManager/PublicationIdManager.js:12-15 | `getOid` keeps the two maps mutual inverses and maps the key to the id it returns, in both directions |
| PublicationIds.AssignIsStable | lib/PublicationIdManager/tests/PublicationIdManager.test.js:3-7 | two `getOid` calls on the same key, with nothing in between, return the same id and leave the same state |
| PublicationIds.KeyOf | lib/PublicationIdManager/PublicationIdManager.js:11 | reference definition of a row's key, `sum(doc._id)`; its properties are `OidDependsOnlyOnId` and `Reconcile.AssignAllSameKeys` |
| PublicationIds.OidDependsOnlyOnId | lib/PublicationIdManager/PublicationIdManager.js:11 | rows with equal `_id` get the same id from the same state, whatever their other fields hold |
| PublicationIds.MintedIdIsFresh | lib/PublicationIdManager/PublicationIdManager.js:12-14 | a newly minted id is none of the ids currently in the reverse map |
| PublicationIds.ReleaseKeepsConsistent | lib/PublicationIdManager/PublicationIdManager.js:19-23 | `removeOid` keeps the maps mutual inverses |
| PublicationIds.ReleaseForgetsOnlyOid | lib/PublicationIdManager/PublicationIdManager.js:20-22 | after `removeOid(o)` neither map mentions `o` or its key, and every other entry of both maps is unchanged |
| PublicationIds.ReleasedKeyGetsNewId | lib/PublicationIdManager/tests/PublicationIdManager.test.js:9-17 | after the id of a key is released, asking for the key again gives a different id |
| PublicationIds.ResetKeyGetsNewId | lib/PublicationIdManager/tests/PublicationIdManager.test.js:19-27 | after `reset()` both maps are empty, and a key seen before the reset gets a different id |
| PublicationIds.RunKeepsConsistent | lib/PublicationIdManager/PublicationIdManager.js:10-28 | any sequence of `getOid`, `removeOid` and `reset` calls keeps the maps mutual inverses and never rewinds the id source |
| PublicationIds.NeverReissued | lib/PublicationIdManager/PublicationIdManager.js:12-14 | an id handed out once is never minted again, whatever releases and resets follow |
| Utils.MatchStages | lib/Utils/Utils.js:3 | the filtered stages are exactly the pipeline's stages with a `$match` key, and the first of them is the pipeline's first such stage |
| Utils.GetPipelineMatchStage | lib/Utils/Utils.js:1-9 | an absent pipeline gives `false`; otherwise the result is `false` exactly when no stage has `$match`, and else it is the pipeline's own first `$match` stage (no earlier stage has one) |
| Reconcile.Step | lib/aggregator.js:66-84 | whatever the branch, the row's id ends up holding the row's stored value, no other entry changes, and the events are the row's reference events (`added` when not truthily published, `changed` when the stored value is `!==` the field) |
| Reconcile.AddPhase | lib/aggregator.js:63-85 | reference definition of the `results.forEach` loop, one `Step` per row; its properties are `AddPhaseKeys`, `AddPhaseStores`, `AddPhaseEventKinds` and `AddPhaseIsRowwise` |
| Reconcile.Stale | lib/aggregator.js:87-88 | reference definition of the ids to retract, the snapshot's ids that no row has now; its properties are stated by `PassKeys` |
| Reconcile.ReleaseAll | lib/aggregator.js:91 | reference definition of `removeOid` over a set of ids; its properties are `ReleaseOneMore` and `ReleaseAllKeeps` |
| Reconcile.Pass | lib/aggregator.js:61-93 | reference definition of one whole pass (ids, add loop, retraction); its properties are `PassKeys`, `PassKeepsIdsAligned`, `PassStoresEachRow`, `PassIsIdempotent`, `FreshPassOnlyAdds` and `NoChangedWithoutField` |
| Reconcile.AssignAll | lib/aggregator.js:63-65 | one id per row, in row order |
| Reconcile.AssignAllMaps | lib/aggregator.js:63-65 | giving ids to the rows keeps the id maps consistent, changes no existing entry, and leaves each row's key mapped to the id that row got |
| Reconcile.AssignAllConsistent | lib/aggregator.js:63-65 | giving ids to the rows keeps the two id maps mutual inverses |
| Reconcile.AssignAllForward | lib/aggregator.js:63-65 | giving ids to the rows changes no existing key's id, and maps each row's key to the id that row got |
| Reconcile.AssignAllIds | lib/aggregator.js:63-65 | the ids the manager knows after the loop are the ones it knew plus the rows' ids |
| Reconcile.AssignAllDistinct | lib/aggregator.js:63-65 | rows with distinct keys get distinct ids |
| Reconcile.AssignAllKnown | lib/aggregator.js:63-65 | when every row's key is already mapped, the loop reads the map and changes nothing |
| Reconcile.AddPhaseKeys | lib/aggregator.js:63-85 | after the loop the snapshot holds the old ids plus the rows' ids; entries of other ids keep their values |
| Reconcile.AddPhaseStores | lib/aggregator.js:72-83 | after the loop each row's id holds the row's single-value field, or `true` without one; when ids repeat, the last row with that id decides |
| Reconcile.AddPhaseEventKinds | lib/aggregator.js:68-84 | the loop emits only `added` and `changed`, at most one per row, and without a single-value field only `added` |
| Reconcile.AddPhaseIsRowwise | lib/aggregator.js:68-84 | with distinct ids the loop emits exactly the reference events: `added` for a row whose id has no truthy entry, `changed` for a row whose stored value differs under a single-value field, nothing otherwise, in row order |
| Reconcile.ReleaseOneMore | lib/aggregator.js:91 | releasing the ids one at a time in the removal loop releases the set of them |
| Reconcile.ReleaseAllKeeps | lib/aggregator.js:87-93 | releasing a set of ids keeps the maps consistent, keeps every other key's id, and forgets the released ids |
| Reconcile.EnumeratesOneMore | lib/aggregator.js:88-89 | one more `removed` event for one more stale id extends the enumeration of the retracted ids |
| Reconcile.PassKeys | lib/aggregator.js:62-93 | after a pass the snapshot holds exactly the ids of this pass's rows; the retracted ids are exactly the earlier published ids that no row has now; they are released and no id of a current row is retracted |
| Reconcile.PassKeepsIdsAligned | lib/aggregator.js:62-93 | a pass keeps the snapshot and the id manager knowing the same ids |
| Reconcile.PassIsIdempotent | lib/aggregator.js:68-76 | a second pass over rows with the same keys and the same (`===`) stored values, where the first rows have distinct keys and truthy stored values, keeps every id, emits nothing, retracts nothing, and leaves the snapshot and the id tables as they were |
| Reconcile.QuietAddPhase | lib/aggregator.js:68-76 | a snapshot that already holds every row's truthy stored value is a fixed point of the loop, which emits nothing |
| Reconcile.QuietPass | lib/aggregator.js:68-76 | a pass whose rows keep their ids, over a snapshot holding exactly those ids with the rows' truthy stored values, emits nothing, retracts nothing and changes nothing |
| Reconcile.SecondPassSameIds | lib/aggregator.js:64 | a second pass over rows with the same keys finds each row's id where the first pass left it |
| Reconcile.AssignAllSameKeys | lib/PublicationIdManager/PublicationIdManager.js:11 | rows with the same keys get the same ids and leave the same tables, whatever their other fields hold |
| Reconcile.NewDateIsChanged | lib/aggregator.js:70-72 | a single-value field holding a new `Date` of the instant already stored fails `!==`, so the row is sent as `changed` and the new `Date` is stored |
| Reconcile.PassStoresEachRow | lib/aggregator.js:72-83 | with distinct keys, after a pass each row's id holds that row's stored value |
| Reconcile.FalsyValueIsAddedAgain | lib/aggregator.js:68 | a row whose id holds a falsy stored value (say the count 0) is added again, not compared |
| Reconcile.FreshPassRetractsNothing | lib/aggregator.js:87-93 | a pass against an empty snapshot, as after a rebuild, retracts no id, whatever the rows |
| Reconcile.FreshPassOnlyAdds | lib/aggregator.js:77-84 | a pass against an empty snapshot emits one `added` per row, in row order, and retracts nothing |
| Reconcile.NoChangedWithoutField | lib/aggregator.js:74-76 | without a single-value field a pass never emits `changed`, and every entry it keeps is `true` |
| Reconcile.RowwiseQuiet | lib/aggregator.js:68-76 | when every row's truthy stored value is already there, the reference events are empty |
| Reconcile.RowwiseHas | lib/aggregator.js:63-85 | every row's reference events are among the pass's reference events |
| Reconcile.RowwiseOnEmpty | lib/aggregator.js:77-78 | against the empty snapshot the reference events are one `added` per row |
| Aggregator.DetectSingleValueField | lib/aggregator.js:46-48 | a configured field is kept; otherwise, when `$group` has exactly two keys, the one that is not `_id` is chosen; with any other number of keys nothing is chosen; without a `$group` object `Object.keys` throws |
| Aggregator.NotId | lib/aggregator.js:47 | the filter keeps exactly the keys other than `_id` |
| Aggregator.ExpiryDelay | lib/aggregator.js:120-126 | no timer without an oldest in-window document; else the delay is `millis - (now - oldest)`; a window field that holds no `Date` throws |
| Aggregator.TimerFiresWhenOldestLeaves | lib/aggregator.js:110-121 | for an oldest document inside the window the delay is positive, and the document stays in the window at every moment before the timer fires and at none after |
| Aggregator.OnAdded | lib/aggregator.js:183-194 | the `added` observer does nothing before `ready` or while both `.pending` properties are truthy, and ignores a document older than the window; otherwise it recomputes, and re-arms the timer exactly when no oldest document is tracked or the new one is older |
| Aggregator.OnRemoved | lib/aggregator.js:195-203 | the `removed` observer does nothing before `ready` or while both `.pending` properties are truthy; otherwise it recomputes, and re-arms the timer exactly when no oldest document is tracked or the removed id is the tracked one |
| Aggregator.InsertMatchStage | lib/aggregator.js:145-148 | the intended insertion: one fresh empty `$match` stage goes in front of the pipeline, and it is the stage kept as `matchStage` |
| Aggregator.InsertedStageIsFirstMatch | lib/aggregator.js:144-148 | a `$match` stage put in front of a pipeline is what `getPipelineMatchStage` then finds |
| Aggregator.InsertMatchStageAsWritten | lib/aggregator.js:146-147 | as written: the stage spliced into the pipeline and the stage kept as `matchStage` are two different objects |
| Aggregator.WindowBoundMissesPipeline | lib/aggregator.js:59 | as written, the window bound written into `matchStage` reaches no stage of the pipeline, whose `$match` stage stays empty |
| Aggregator.Publication.constructor | lib/aggregator.js:11-34 | a new publication starts with an empty snapshot and a fresh id manager; no pipeline is installed yet, since the one built at line 24 serves only the detection, and `Rebuild` installs one |
| Aggregator.Publication.Update | lib/aggregator.js:50-94 | without a pipeline nothing happens; otherwise the window bound `$gt: now - millis` is written into the pipeline's own `$match` stage (which holds with the corrected insertion of the Findings table) and one pass runs, whose events, snapshot and id tables are those of `Pass`; without a pipeline or a window the `$match` stage is left as it was |
| Aggregator.Publication.RunPass | lib/aggregator.js:61-93 | the pass's events are the loop's events followed by one `removed` per retracted id; the new snapshot and the id tables are those of `Pass`; the snapshot and the id manager keep knowing the same ids |
| Aggregator.Publication.PublishResults | lib/aggregator.js:62-85 | the loop over the rows leaves the ids, the tables, the snapshot and the events of `AssignAll` and `AddPhase` |
| Aggregator.Publication.PublishRow | lib/aggregator.js:66-84 | one row updates the snapshot and emits as `Step` says |
| Aggregator.Publication.RetractStale | lib/aggregator.js:87-93 | every snapshot entry whose id no row has now is retracted once, deleted and released; nothing else is deleted |
| Aggregator.Publication.UnpublishAll | lib/aggregator.js:36-44 | one `removed` for every published id, then an empty snapshot and a reset id manager |
| Aggregator.Publication.UpdatePipeline | lib/aggregator.js:131-150 | everything is retracted; the new pipeline is installed; with a time window its first `$match` stage becomes `matchStage`, or, with the corrected insertion of the Findings table, a fresh empty one is put in front of it and is the stage kept |
| Aggregator.Publication.Rebuild | lib/aggregator.js:131-157 | a build (line 206) or rebuild, with the corrected insertion of the Findings table: one `removed` per published id; the created pipeline is installed as it is, or with one fresh `$match` stage in front when it has none and there is a window; the kept stage is the found one or that fresh one, and only its window field is written (the other criteria survive), while no other stage changes; then the first `update()` after `unpublishAll` runs over the new pipeline's rows from an empty snapshot and cleared tables, so it retracts nothing and its events, snapshot and tables are those of `Pass` |
| LegacyAggregator.LegacyAssign | aggregator.js:7-13 | the key ends up mapped to the returned id; a known key leaves the map as it was; an unknown key gets the next unminted id |
| LegacyAggregator.LegacyAssignIsForwardHalf | aggregator.js:7-13 | the root `getOid` hands out the same id and leaves the same forward map as the id manager's `getOid` |
| LegacyAggregator.LegacyAssignAll | aggregator.js:64-66 | one id per row, in row order |
| LegacyAggregator.LegacyIdsPersist | aggregator.js:7-13 | ids are never released: every existing entry stays as it was, and each row's key maps to the id the row got |
| LegacyAggregator.ReturningGroupKeepsId | aggregator.js:82-87 | a group that disappears and comes back gets its old id, whatever passes came in between |
| LegacyAggregator.LegacyMintedIdIsFresh | aggregator.js:9-10 | a newly minted id is held by no key |
| LegacyAggregator.LegacyStep | aggregator.js:67-79 | the row's events are the same reference events as in the current version, but the snapshot is written only with a single-value field, and then holds the row's field under its id |
| LegacyAggregator.LegacyAddPhase | aggregator.js:64-80 | reference definition of the root `results.forEach` loop, one `LegacyStep` per row; its properties are `LegacyAgreesWithField`, `LegacyWithoutFieldKeepsSnapshot`, `LegacyEventKinds` and `LegacyAddPhaseFrame` |
| LegacyAggregator.LegacyPass | aggregator.js:64-87 | reference definition of one whole root pass, which releases no id; its properties are `LegacyPassKeys`, `LegacyPassRemovals`, `LegacyWithoutFieldReaddsEverything` and `ReturningGroupKeepsId` |
| LegacyAggregator.LegacyAgreesWithField | aggregator.js:69-79 | with a single-value field, the root loop emits and stores exactly what the current loop does |
| LegacyAggregator.LegacyWithoutFieldKeepsSnapshot | aggregator.js:74-79 | without a single-value field the loop never writes the snapshot, and each row is added unless its id holds a truthy value |
| LegacyAggregator.LegacyEventKinds | aggregator.js:69-79 | the loop emits only `added` and `changed`, and `changed` only with a single-value field |
| LegacyAggregator.LegacyPassKeys | aggregator.js:64-87 | with a single-value field, after a pass the snapshot holds exactly the rows' ids, and the retracted ids are the earlier ids no row has now |
| LegacyAggregator.LegacyWithoutFieldReaddsEverything | aggregator.js:74-87 | without a single-value field, from the empty start every pass adds every row again, in row order, stores nothing and retracts nothing |
| LegacyAggregator.LegacyAddPhaseFrame | aggregator.js:64-80 | the loop only adds entries for the rows' ids and leaves entries of other ids unchanged |
| LegacyAggregator.LegacyPassRemovals | aggregator.js:82-87 | exactly the entries whose ids no row has now are retracted and deleted; every other entry survives |
| LegacyAggregator.AppendMatchStage | aggregator.js:46-49 | a fresh empty `$match` stage is pushed onto the end of the pipeline, which grows by one, and it is the stage kept |
| LegacyAggregator.AppendedStageIsFirstMatch | aggregator.js:44-50 | a `$match` stage appended to a pipeline without one is the pipeline's match stage |
| LegacyAggregator.Projected | aggregator.js:104 | the fetched oldest document holds only `_id` and the window field |
| LegacyAggregator.LegacyNextUpdateAsWritten | aggregator.js:113-114 | as written: no timer without an oldest document; the delay reads `timestamp`, so with any other window field it throws |
| LegacyAggregator.LegacyNextUpdateAgreesOnTimestamp | aggregator.js:114 | when the window field is `timestamp`, the root delay is the intended one |
| LegacyAggregator.NextUpdateCounterexample | aggregator.js:114 | for a window field `createdAt` the root delay throws, where the intended delay is 50 seconds |
| LegacyAggregator.LegacyPublication.constructor | aggregator.js:35-50 | empty state; with a time window the first `$match` stage is kept, or a fresh one is pushed onto the end and kept, so the pipeline grows by one |
| LegacyAggregator.LegacyPublication.GetOid | aggregator.js:7-13 | a known key keeps its id; an unknown one gets a freshly minted id |
| LegacyAggregator.LegacyPublication.Update | aggregator.js:56-88 | the window bound is written only when there is a window and its `millis` is non-zero, and otherwise the `$match` stage is left as it was; the pass's events, snapshot and ids are those of `LegacyPass` |
| LegacyAggregator.LegacyPublication.PublishResults | aggregator.js:64-80 | the loop over the rows leaves the ids, the snapshot and the events of `LegacyAssignAll` and `LegacyAddPhase` |
| LegacyAggregator.LegacyPublication.PublishRow | aggregator.js:67-79 | one row updates the snapshot and emits as `LegacyStep` says |
| LegacyAggregator.LegacyPublication.RetractStale | aggregator.js:82-87 | every entry whose id no row has now is retracted once and deleted; nothing else changes and no id is released |

## Left out

- Running the aggregation (`aggregateQuery`, `rawCollection`, `Meteor.wrapAsync`) and the expiry query `collection.find(...).fetch()[0]`: they are database calls. Their results are inputs: the rows of a run, and the oldest in-window document as an `Option`.
- Timers and rate limiting (`_.throttle`, `Meteor.bindEnvironment`, `setTimeout`, `clearTimeout`, `.cancel()`, `.pending`): these are runtime behaviour of the event loop and of lodash. The model keeps the decisions made around them. `.pending` is an input of the gating functions, and the cancels in `unpublishAll` are not modelled.
- The build at line 206 and the rebuild by `updatePipeline` are `UpdatePipeline` followed by `Update`, composed by `Aggregator.Publication.Rebuild`, which takes the rows of the new pipeline's aggregation as an input. The `updateTimeout()` call at line 156 (the expiry query and the timer, whose delay `ExpiryDelay` states), `self.ready()` and `onStop` are left out: they schedule or stop work.
- The `observeChanges` subscriptions, `updateMainObserver`, and the `republishOnChange` observer that rebuilds the pipeline: these are subscriptions driven by the event loop. Only the gating tests of the main observer (`OnAdded`, `OnRemoved`) are modelled.
- The query that `updateTimeout` builds (lib/aggregator.js:103-112): it is an argument of the database call, which is left out. That query is `matchStage.$match` itself, not a copy, so line 110 writes its own window bound into the pipeline's `$match` stage. This does not change any pass, because `update` overwrites the same property at line 59 before it runs the aggregation.
- The gating tests of the root observers (aggregator.js:122-141): they are not part of this model.
- Aggregator.OnAdded: the time of the new document is an integer input. The source also throws when that document's window field holds no `Date`; the model does not show this.
- `pipelineCreator` and the pipeline argument of the root version are inputs. The root version's push, and the current version's splice (lib/aggregator.js:146), change the array the caller handed over; both are modelled as the publication's new pipeline value. Aliasing with the caller's array is not modelled: the model assumes `pipelineCreator` returns a fresh array on every call.
- `pipeline.$group` is read from an array, so it is `undefined` unless the caller set such a property. Detection takes `Object.keys(pipeline.$group)` as an input: `None` means it throws.
- Floating-point numbers, `NaN` and fractional milliseconds are left out: numbers are integers, and so is a `Date`'s time.
- The string form of an id (`ObjectID._str`), and the conversion of map keys to strings by `Object.keys`: ids are `nat`s, compared by value.
- The order in which `Object.keys(published)` lists ids: the removal events are specified as an enumeration of the stale ids in some order.
- `Aggregator.Publication.Update` and `LegacyAggregator.LegacyPublication.Update` take the current time `now` as a parameter instead of reading `Date.now()`.

## Findings

| source | as written | input that shows it | evidently intended | confidence | as-written member | corrected member |
|---|---|---|---|---|---|---|
| lib/aggregator.js:146-147 | one empty `{ $match: {} }` object is spliced into the pipeline, and a second, different one is assigned to `matchStage`; `update` writes the window bound at line 59 into the second, so the aggregation is never restricted to the window | `pastPeriod` set and a pipeline without a `$match` stage | the stage spliced in is the stage kept as `matchStage`, as the root version does at aggregator.js:47-48 | not executed; high, assuming `pipelineCreator` returns a fresh array on every call (the splice changes the array it returned, so a creator that hands back the same array has the spliced stage found by the next rebuild) | Aggregator.WindowBoundMissesPipeline | Aggregator.InsertMatchStage |
| aggregator.js:114 | the delay reads `oldestDocument.timestamp`, but the expiry query fetches only `_id` and the window field (line 104), so for any window field other than `timestamp` the call `getTime()` on `undefined` throws | window field `createdAt`, oldest document `{ _id: 1, createdAt: <a Date of time 90000> }`, window 60000 ms, now 100000 | the delay from the configured window field, as lib/aggregator.js:121 reads it | not executed; high | LegacyAggregator.NextUpdateCounterexample | Aggregator.ExpiryDelay |

The corrected insertion is the one `Aggregator.Publication.UpdatePipeline` uses. With it, the
publication's invariant (`Publication.Valid`) holds: with a time window, `matchStage` is the
pipeline's own first `$match` stage, so `Update` writes the bound into the pipeline.

Two further points on how the code behaves:

- The `added` observer of lib/aggregator.js re-arms the expiry timer also when no oldest
  document is tracked (line 190), and not only when the new document is older than the
  tracked one. `Aggregator.OnAdded` follows the code.
- The removal loop deletes ids from `published` while it walks the key list taken at its
  start. `RetractStale` walks a snapshot of the keys in the same way.
