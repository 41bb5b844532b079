/**
 * The publication built by `buildAggregator` (lib/aggregator.js): the state its closure
 * keeps, its reconciliation pass, its teardown and rebuild, and the pure pieces around them
 * (single-value field detection, the expiry delay, the observers' gating tests).
 *
 * Timers, throttling and the change observers are runtime machinery; the model keeps the
 * decisions they act on and leaves the scheduling out.
 */
module Aggregator {
  import opened Values
  import opened PublicationIds
  import opened Utils
  import opened Reconcile

  // ---------------------------------------------------------------------------------------
  // Single-value field detection

  /** `keys.filter(k => k !== '_id')` */
  function NotId(keys: seq<string>): (r: seq<string>)
    ensures forall k :: k in r <==> k in keys && k != "_id"
    decreases |keys|
  {
    if keys == [] then []
    else (if keys[0] != "_id" then [keys[0]] else []) + NotId(keys[1..])
  }

  /**
   * The single-value field in force (lines 46-47): the configured one when it is set;
   * otherwise, when the `$group` object has exactly two keys, the first of them that is not
   * `_id`. `groupKeys` is `Object.keys(pipeline.$group)`, and `None` when `pipeline.$group`
   * does not exist, where `Object.keys` throws.
   */
  function DetectSingleValueField(configured: Option<string>, groupKeys: Option<seq<string>>): (r: Result<Option<string>>)
    ensures IsSet(configured) ==> r == Ok(configured)
    ensures !IsSet(configured) ==> (r.Err? <==> groupKeys.None?)
    ensures !IsSet(configured) && groupKeys.Some? && |groupKeys.value| != 2 ==> r == Ok(configured)
    ensures r.Ok? && r.value != configured && r.value.Some? ==>
              && groupKeys.Some? && |groupKeys.value| == 2
              && r.value.value in groupKeys.value && r.value.value != "_id"
    ensures !IsSet(configured) && groupKeys.Some? && |groupKeys.value| == 2 && "_id" in groupKeys.value &&
            groupKeys.value[0] != groupKeys.value[1] ==>
              r.Ok? && r.value.Some? && r.value.value in groupKeys.value && r.value.value != "_id"
  {
    if IsSet(configured) then Ok(configured)
    else if groupKeys.None? then Err(TypeError("Cannot convert undefined or null to object"))
    else if |groupKeys.value| == 2 then
      var others := NotId(groupKeys.value);
      assert groupKeys.value[0] in others || groupKeys.value[1] in others ||
             (groupKeys.value[0] == "_id" && groupKeys.value[1] == "_id");
      Ok(if |others| > 0 then Some(others[0]) else None)
    else Ok(configured)
  }

  // ---------------------------------------------------------------------------------------
  // Expiry timer

  /** The window test of the expiry query, `{ [field]: { $gt: new Date(now - millis) } }`. */
  predicate InWindow(time: int, now: int, window: Window) {
    time > now - window.millis
  }

  /**
   * The delay `updateTimeout` arms its timer with (lines 98-126): none without a time window
   * or without an oldest in-window document; otherwise `millis - (now - oldest)`, which is the
   * moment the oldest document leaves the window. Reading the time of a field that does not
   * hold a `Date` throws.
   */
  function ExpiryDelay(window: Option<Window>, now: int, oldest: Option<Doc>): (r: Result<Option<int>>)
    ensures window.None? || oldest.None? ==> r == Ok(None)
    ensures window.Some? && oldest.Some? ==> (r.Ok? <==> Get(oldest.value, window.value.field).Date?)
    ensures r.Ok? && r.value.Some? ==>
              && window.Some? && oldest.Some?
              && now + r.value.value == Get(oldest.value, window.value.field).millis + window.value.millis
  {
    if window.None? then Ok(None)
    else if oldest.None? then Ok(None)
    else
      match TimeOf(Get(oldest.value, window.value.field))
      case Err(e) => Err(e)
      case Ok(time) => Ok(Some(window.value.millis - (now - time)))
  }

  /**
   * The timer is positive and fires exactly when the oldest document leaves the window: the
   * document found by the expiry query is in the window at every moment before the deadline
   * and at none from the deadline on.
   */
  lemma TimerFiresWhenOldestLeaves(window: Window, now: int, oldest: Doc)
    requires Get(oldest, window.field).Date?
    requires InWindow(Get(oldest, window.field).millis, now, window)
    ensures var r := ExpiryDelay(Some(window), now, Some(oldest));
            && r.Ok? && r.value.Some? && r.value.value >= 1
            && forall later :: now <= later ==>
                 (InWindow(Get(oldest, window.field).millis, later, window) <==> later < now + r.value.value)
  {
  }

  // ---------------------------------------------------------------------------------------
  // Observer gating

  /** The tracked `oldestDocument`: its `_id` and the time in its window field. */
  datatype Tracked = Tracked(id: Value, time: int)

  /** What an observer callback goes on to do: re-arm the expiry timer, recompute. */
  datatype Reaction = Reaction(rearmExpiry: bool, recompute: bool)

  /**
   * The `added` observer (lines 183-194). `updatePending` and `expiryPending` are the
   * truthiness of the `.pending` properties read on the two throttled functions; `docTime` is the time in the new
   * document's window field.
   */
  function OnAdded(ready: bool, updatePending: bool, expiryPending: bool, window: Option<Window>,
                   now: int, docTime: int, oldest: Option<Tracked>): (r: Reaction)
    ensures !ready || (updatePending && expiryPending) ==> r == Reaction(false, false)
    ensures window.Some? && now - docTime > window.value.millis ==> r == Reaction(false, false)
    ensures r.recompute <==>
              ready && !(updatePending && expiryPending) && !(window.Some? && now - docTime > window.value.millis)
    ensures r.rearmExpiry <==>
              r.recompute && (oldest.None? || (window.Some? && docTime < oldest.value.time))
  {
    if !ready || (updatePending && expiryPending) then Reaction(false, false)
    else if window.Some? && now - docTime > window.value.millis then Reaction(false, false)
    else Reaction(oldest.None? || (window.Some? && docTime < oldest.value.time), true)
  }

  /** The `removed` observer (lines 195-203): re-arm only without a tracked oldest or for it. */
  function OnRemoved(ready: bool, updatePending: bool, expiryPending: bool, id: Value,
                     oldest: Option<Tracked>): (r: Reaction)
    ensures !ready || (updatePending && expiryPending) ==> r == Reaction(false, false)
    ensures r.recompute <==> ready && !(updatePending && expiryPending)
    ensures r.rearmExpiry <==> r.recompute && (oldest.None? || id == oldest.value.id)
  {
    if !ready || (updatePending && expiryPending) then Reaction(false, false)
    else Reaction(oldest.None? || id == oldest.value.id, true)
  }

  // ---------------------------------------------------------------------------------------
  // Match-stage insertion

  /**
   * The evidently intended insertion of lines 145-148: an empty `$match` stage goes in front
   * of the pipeline and is the stage the publication keeps as `matchStage`.
   */
  method InsertMatchStage(pipeline: seq<Stage>) returns (withMatch: seq<Stage>, stage: Stage)
    ensures fresh(stage) && HasMatch(stage) && stage.criteria == map[]
    ensures withMatch == [stage] + pipeline
  {
    stage := new Stage({"$match"}, map[]);
    withMatch := [stage] + pipeline;
  }

  /** A `$match` stage put in front of any pipeline is the pipeline's match stage. */
  lemma InsertedStageIsFirstMatch(pipeline: seq<Stage>, stage: Stage)
    requires HasMatch(stage)
    ensures GetPipelineMatchStage(Some([stage] + pipeline)) == Some(stage)
  {
    var p := [stage] + pipeline;
    assert FirstMatchAt(p, 0);
    var i :| FirstMatchAt(p, i) && p[i] == GetPipelineMatchStage(Some(p)).value;
    if 0 < i {
      assert HasMatch(p[0]);
    }
  }

  /**
   * Lines 145-148 as written: one empty `$match` object is spliced into the pipeline and a
   * second, different one is kept as `matchStage`.
   */
  method InsertMatchStageAsWritten(pipeline: seq<Stage>) returns (withMatch: seq<Stage>, stage: Stage)
    ensures fresh(stage) && HasMatch(stage) && stage.criteria == map[]
    ensures |withMatch| == |pipeline| + 1 && withMatch[1..] == pipeline
    ensures fresh(withMatch[0]) && HasMatch(withMatch[0]) && withMatch[0].criteria == map[]
    ensures stage !in withMatch
  {
    var spliced := new Stage({"$match"}, map[]);
    withMatch := [spliced] + pipeline;
    stage := new Stage({"$match"}, map[]);
  }

  /**
   * What the as-written insertion does to the time window: the bound that `update` writes
   * into `matchStage` (line 59) reaches no stage of the pipeline, whose `$match` stage stays
   * empty, so the aggregation is never restricted to the window.
   */
  method WindowBoundMissesPipeline(pipeline: seq<Stage>, window: Window, now: int) returns (withMatch: seq<Stage>)
    requires forall i :: 0 <= i < |pipeline| ==> !HasMatch(pipeline[i])
    ensures GetPipelineMatchStage(Some(withMatch)).Some?
    ensures GetPipelineMatchStage(Some(withMatch)).value.criteria == map[]
  {
    var stage;
    withMatch, stage := InsertMatchStageAsWritten(pipeline);
    stage.criteria := stage.criteria[window.field := After(now - window.millis)];
    assert FirstMatchAt(withMatch, 0);
  }

  // ---------------------------------------------------------------------------------------
  // The publication

  class Publication {
    const idManager: PublicationIdManager
    /** The single-value field in force, after detection. */
    const singleValueField: Option<string>
    const transform: Option<Doc -> Doc>
    const pastPeriod: Option<Window>
    /** The pipeline built by `pipelineCreator`; `None` for a falsy one. */
    var pipeline: Option<seq<Stage>>
    /** The stage that receives the time-window bound; `null` stands for `false`. */
    var matchStage: Stage?
    /** Public id -> the value compared on the next pass (the single-value field, or `true`). */
    var published: map<Oid, Value>

    /**
     * The closure's invariant: the id manager is consistent and knows exactly the published
     * ids, and with a time window and a pipeline, `matchStage` is the pipeline's own first
     * `$match` stage.
     */
    ghost predicate Valid()
      reads this, idManager
    {
      && idManager.Valid()
      && published.Keys == idManager.oidToHashMap.Keys
      && (pastPeriod.Some? && pipeline.Some? ==> matchStage != null && GetPipelineMatchStage(pipeline) == Some(matchStage))
    }

    constructor (hash: Value -> Hash, singleValueField: Option<string>, transform: Option<Doc -> Doc>,
                 pastPeriod: Option<Window>)
      ensures Valid() && fresh(idManager) && idManager.hash == hash
      ensures this.singleValueField == singleValueField && this.transform == transform && this.pastPeriod == pastPeriod
      ensures pipeline == None && matchStage == null && published == map[]
    {
      idManager := new PublicationIdManager(hash);
      this.singleValueField, this.transform, this.pastPeriod := singleValueField, transform, pastPeriod;
      pipeline, matchStage, published := None, null, map[];
    }

    /**
     * `update` (lines 50-94), given the rows the aggregation returns and the current time:
     * with no pipeline, nothing; otherwise the window bound goes into the pipeline's
     * `$match` stage and one reconciliation pass runs.
     */
    method Update(results: seq<Doc>, now: int) returns (events: seq<Event>)
      requires Valid()
      modifies this`published, idManager, matchStage
      ensures Valid()
      ensures pipeline.None? ==>
                events == [] && published == old(published) && idManager.Tables() == old(idManager.Tables())
      ensures pipeline.Some? ==>
                var r := Pass(old(idManager.Tables()), idManager.hash, old(published), results, singleValueField, transform);
                && |r.changes| <= |events| && events[..|r.changes|] == r.changes
                && EnumeratesRemovals(events[|r.changes|..], r.removed)
                && published == r.published && idManager.Tables() == r.tables
      ensures pipeline.Some? && pastPeriod.Some? ==>
                && GetPipelineMatchStage(pipeline).value == matchStage
                && matchStage.criteria == old(matchStage.criteria)[pastPeriod.value.field := After(now - pastPeriod.value.millis)]
      ensures (pipeline.None? || pastPeriod.None?) && matchStage != null ==> matchStage.criteria == old(matchStage.criteria)
    {
      if pipeline.None? {
        return [];
      }
      if pastPeriod.Some? {
        matchStage.criteria := matchStage.criteria[pastPeriod.value.field := After(now - pastPeriod.value.millis)];
      }
      events := RunPass(results);
    }

    /** The pass itself (lines 61-93). */
    method RunPass(results: seq<Doc>) returns (events: seq<Event>)
      requires Valid()
      modifies this`published, idManager
      ensures Valid()
      ensures var r := Pass(old(idManager.Tables()), idManager.hash, old(published), results, singleValueField, transform);
              && |r.changes| <= |events| && events[..|r.changes|] == r.changes
              && EnumeratesRemovals(events[|r.changes|..], r.removed)
              && published == r.published && idManager.Tables() == r.tables
    {
      PassKeepsIdsAligned(idManager.Tables(), idManager.hash, published, results, singleValueField, transform);
      var resultOids, changes := PublishResults(results);
      var removals := RetractStale(resultOids);
      events := changes + removals;
      assert events[..|changes|] == changes && events[|changes|..] == removals;
    }

    /** `results.forEach(...)` (lines 62-85): every row gets its id and is published or compared. */
    method PublishResults(results: seq<Doc>) returns (resultOids: seq<Oid>, events: seq<Event>)
      requires idManager.Valid()
      modifies this`published, idManager
      ensures idManager.Valid()
      ensures AssignAll(old(idManager.Tables()), idManager.hash, results) == (idManager.Tables(), resultOids)
      ensures AddPhase(old(published), resultOids, results, singleValueField, transform) == (published, events)
    {
      ghost var t0, p0 := idManager.Tables(), published;
      resultOids, events := [], [];
      var i := 0;
      while i < |results|
        invariant 0 <= i <= |results|
        invariant idManager.Valid()
        invariant AssignAll(t0, idManager.hash, results[..i]) == (idManager.Tables(), resultOids)
        invariant AddPhase(p0, resultOids, results[..i], singleValueField, transform) == (published, events)
      {
        var doc := results[i];
        var oid := idManager.GetOid(doc);
        ghost var prevOids := resultOids;
        resultOids := resultOids + [oid];
        var emitted := PublishRow(oid, doc);
        events := events + emitted;
        assert results[..i + 1][..i] == results[..i] && results[..i + 1][i] == doc;
        assert resultOids[..i] == prevOids && resultOids[i] == oid;
        i := i + 1;
      }
      assert results[..i] == results;
    }

    /** One row (lines 66-84): `added` when its id is not published, else a compare. */
    method PublishRow(oid: Oid, doc: Doc) returns (emitted: seq<Event>)
      modifies this`published
      ensures (published, emitted) == Step(old(published), oid, doc, singleValueField, transform)
    {
      var transformedDocument := if transform.Some? then transform.value(doc) else doc;
      emitted := [];
      if oid in published && Truthy(published[oid]) {
        if IsSet(singleValueField) {
          if published[oid] != Get(doc, singleValueField.value) {
            emitted := [Changed(oid, transformedDocument)];
            published := published[oid := Get(doc, singleValueField.value)];
          }
        } else {
          published := published[oid := Bool(true)];
        }
      } else {
        emitted := [Added(oid, transformedDocument)];
        if IsSet(singleValueField) {
          published := published[oid := Get(doc, singleValueField.value)];
        } else {
          published := published[oid := Bool(true)];
        }
      }
    }

    /**
     * `Object.keys(published).forEach(...)` (lines 87-93): every entry whose id is not among
     * this pass's ids is retracted, deleted and released, in an order the model leaves open.
     */
    method RetractStale(resultOids: seq<Oid>) returns (removals: seq<Event>)
      requires idManager.Valid()
      modifies this`published, idManager
      ensures idManager.Valid()
      ensures EnumeratesRemovals(removals, Stale(old(published), resultOids))
      ensures published == old(published) - Stale(old(published), resultOids)
      ensures idManager.Tables() == ReleaseAll(old(idManager.Tables()), Stale(old(published), resultOids))
    {
      ghost var p1, t1 := published, idManager.Tables();
      ghost var stale := Stale(p1, resultOids);
      ghost var visited: set<Oid> := {};
      var keys := published.Keys;
      removals := [];
      while keys != {}
        invariant keys <= p1.Keys && visited == p1.Keys - keys
        invariant published == p1 - (stale * visited)
        invariant idManager.Valid()
        invariant idManager.Tables() == ReleaseAll(t1, stale * visited)
        invariant EnumeratesRemovals(removals, stale * visited)
        decreases keys
      {
        var oid :| oid in keys;
        ghost var done := stale * visited;
        if oid !in resultOids {
          assert oid in stale && oid !in done;
          EnumeratesOneMore(removals, done, oid);
          ReleaseOneMore(t1, done, oid);
          removals := removals + [Removed(oid)];
          published := published - {oid};
          idManager.RemoveOid(oid);
          assert stale * (visited + {oid}) == done + {oid};
        } else {
          assert stale * (visited + {oid}) == done;
        }
        keys := keys - {oid};
        visited := visited + {oid};
      }
      assert stale * visited == stale;
    }

    /**
     * `unpublishAll` (lines 36-44): every published row is retracted, the snapshot emptied
     * and the id manager reset.
     */
    method UnpublishAll() returns (events: seq<Event>)
      requires Valid()
      modifies this`published, idManager
      ensures Valid()
      ensures EnumeratesRemovals(events, old(published).Keys)
      ensures published == map[] && idManager.Tables() == Cleared(old(idManager.Tables()))
    {
      var keys := published.Keys;
      events := [];
      while keys != {}
        invariant keys <= published.Keys
        invariant EnumeratesRemovals(events, published.Keys - keys)
        decreases keys
      {
        var oid :| oid in keys;
        events := events + [Removed(oid)];
        keys := keys - {oid};
      }
      published := map[];
      idManager.Reset();
    }

    /**
     * The rebuild part of `updatePipeline` (lines 131-150): everything published is
     * retracted, the new pipeline is installed, and with a time window its `$match` stage is
     * located, or an empty one is put in front and kept as `matchStage`.
     */
    method UpdatePipeline(created: Option<seq<Stage>>) returns (events: seq<Event>)
      requires Valid()
      modifies this`published, this`pipeline, this`matchStage, idManager
      ensures Valid()
      ensures EnumeratesRemovals(events, old(published).Keys)
      ensures published == map[] && idManager.Tables() == Cleared(old(idManager.Tables()))
      ensures pastPeriod.None? || created.None? ==> pipeline == created && matchStage == old(matchStage)
      ensures pastPeriod.Some? && GetPipelineMatchStage(created).Some? ==>
                pipeline == created && matchStage == GetPipelineMatchStage(created).value
      ensures pastPeriod.Some? && created.Some? && GetPipelineMatchStage(created).None? ==>
                && fresh(matchStage) && pipeline == Some([matchStage] + created.value)
                && HasMatch(matchStage) && matchStage.criteria == map[]
    {
      events := UnpublishAll();
      pipeline := created;
      if pastPeriod.Some? && pipeline.Some? {
        var found := GetPipelineMatchStage(pipeline);
        if found.Some? {
          matchStage := found.value;
        } else {
          var withMatch, stage := InsertMatchStage(pipeline.value);
          InsertedStageIsFirstMatch(pipeline.value, stage);
          pipeline, matchStage := Some(withMatch), stage;
        }
      }
    }

    /**
     * `updatePipeline` as a whole (lines 131-157), which also builds the publication at
     * line 206: the rebuild above, with the corrected insertion, then the first `update()`
     * after `unpublishAll`, over the rows the new pipeline's aggregation returns. That pass
     * starts from an empty snapshot and cleared tables, so it retracts nothing (and only adds;
     * see `FreshPassOnlyAdds`). The created pipeline is installed as it is, or with one empty
     * `$match` stage in front; only the window field of the kept `$match` stage is written,
     * and no other stage changes.
     */
    method Rebuild(created: Option<seq<Stage>>, results: seq<Doc>, now: int) returns (retracted: seq<Event>, events: seq<Event>)
      requires Valid()
      modifies this`published, this`pipeline, this`matchStage, idManager, matchStage
      modifies if created.Some? then created.value else []
      ensures Valid()
      ensures EnumeratesRemovals(retracted, old(published).Keys)
      ensures created.None? ==> events == [] && published == map[] && idManager.Tables() == Cleared(old(idManager.Tables()))
      ensures created.Some? ==>
                var r := Pass(Cleared(old(idManager.Tables())), idManager.hash, map[], results, singleValueField, transform);
                && r.removed == {} && events == r.changes
                && published == r.published && idManager.Tables() == r.tables
      ensures pastPeriod.None? || created.None? ==>
                && pipeline == created && matchStage == old(matchStage)
                && (matchStage != null ==> matchStage.criteria == old(matchStage.criteria))
      ensures pastPeriod.Some? && GetPipelineMatchStage(created).Some? ==>
                && pipeline == created && matchStage == GetPipelineMatchStage(created).value
                && matchStage.criteria == old(GetPipelineMatchStage(created).value.criteria)[pastPeriod.value.field := After(now - pastPeriod.value.millis)]
      ensures pastPeriod.Some? && created.Some? && GetPipelineMatchStage(created).None? ==>
                && fresh(matchStage) && pipeline == Some([matchStage] + created.value) && HasMatch(matchStage)
                && matchStage.criteria == map[pastPeriod.value.field := After(now - pastPeriod.value.millis)]
      ensures pastPeriod.Some? && created.Some? ==> GetPipelineMatchStage(pipeline) == Some(matchStage)
      ensures created.Some? ==> forall s :: s in created.value && s != matchStage ==> s.criteria == old(s.criteria)
      ensures old(matchStage) != null && old(matchStage) != matchStage ==> old(matchStage).criteria == old(matchStage.criteria)
    {
      retracted := UpdatePipeline(created);
      ghost var t0 := idManager.Tables();
      FreshPassRetractsNothing(t0, idManager.hash, results, singleValueField, transform);
      if pastPeriod.Some? && created.Some? && GetPipelineMatchStage(created).Some? {
        var i :| FirstMatchAt(created.value, i) && created.value[i] == GetPipelineMatchStage(created).value;
        assert matchStage in created.value;
      }
      events := Update(results, now);
      if created.Some? {
        NoRemovalsAfter(Pass(t0, idManager.hash, map[], results, singleValueField, transform).changes, events);
      }
    }
  }
}
