/**
 * The older publication of the root `aggregator.js`. It differs from the current one in four
 * ways the model keeps:
 *   - ids live in a single forward map and are never released, so a group that disappears
 *     and comes back keeps its id;
 *   - without a single-value field nothing is stored in the snapshot, so every row is
 *     added again on every pass and nothing is ever retracted;
 *   - a missing `$match` stage is appended to the end of the pipeline, and it is the very
 *     object that receives the time-window bound;
 *   - the expiry delay reads the literal `timestamp` property of the oldest document.
 */
module LegacyAggregator {
  import opened Values
  import opened PublicationIds
  import opened Utils
  import opened Reconcile
  import Aggregator

  // ---------------------------------------------------------------------------------------
  // Ids (`getOid`, lines 7-13)

  /** The closure's `hashToOidMap`, and the count of ids minted so far. */
  datatype LegacyIds = LegacyIds(hashToOid: map<Hash, Oid>, minted: nat)

  /** Every id in the map was minted. */
  predicate LegacyMinted(ids: LegacyIds) {
    forall h :: h in ids.hashToOid ==> ids.hashToOid[h] < ids.minted
  }

  /** `getOid(hashToOidMap, doc)` on the key `h`: the mapped id, or a freshly minted one. */
  function LegacyAssign(ids: LegacyIds, h: Hash): (r: (LegacyIds, Oid))
    ensures h in r.0.hashToOid && r.0.hashToOid[h] == r.1
    ensures h in ids.hashToOid ==> r.0 == ids
    ensures h !in ids.hashToOid ==> r.1 == ids.minted && r.0.minted == ids.minted + 1
  {
    if h in ids.hashToOid then (ids, ids.hashToOid[h])
    else (LegacyIds(ids.hashToOid[h := ids.minted], ids.minted + 1), ids.minted)
  }

  /**
   * The root `getOid` is the forward half of the id manager's `getOid`: from the same forward
   * map and id source it hands out the same id and leaves the same forward map.
   */
  lemma LegacyAssignIsForwardHalf(t: IdTables, h: Hash)
    ensures var (ids, oid) := LegacyAssign(LegacyIds(t.hashToOid, t.minted), h);
            ids == LegacyIds(Assign(t, h).0.hashToOid, Assign(t, h).0.minted) && oid == Assign(t, h).1
  {
  }

  /** The ids `getOid` hands out to the rows in order, and the map afterwards. */
  function LegacyAssignAll(ids: LegacyIds, hash: Value -> Hash, docs: seq<Doc>): (r: (LegacyIds, seq<Oid>))
    ensures |r.1| == |docs|
    decreases |docs|
  {
    if docs == [] then (ids, [])
    else
      var (ids', oids) := LegacyAssignAll(ids, hash, docs[..|docs| - 1]);
      var (ids'', oid) := LegacyAssign(ids', KeyOf(hash, docs[|docs| - 1]));
      (ids'', oids + [oid])
  }

  /**
   * Ids persist: assigning ids to any rows keeps every existing entry of the map as it was,
   * never rewinds the id source, and leaves each row's key mapped to the id the row got.
   */
  lemma {:induction false} LegacyIdsPersist(ids: LegacyIds, hash: Value -> Hash, docs: seq<Doc>)
    requires LegacyMinted(ids)
    ensures var (ids', oids) := LegacyAssignAll(ids, hash, docs);
            && LegacyMinted(ids') && ids'.minted >= ids.minted
            && (forall h :: h in ids.hashToOid ==> h in ids'.hashToOid && ids'.hashToOid[h] == ids.hashToOid[h])
            && (forall i :: 0 <= i < |docs| ==>
                  KeyOf(hash, docs[i]) in ids'.hashToOid && ids'.hashToOid[KeyOf(hash, docs[i])] == oids[i])
    decreases |docs|
  {
    if docs != [] {
      var n := |docs| - 1;
      LegacyIdsPersist(ids, hash, docs[..n]);
      forall i | 0 <= i < n
        ensures docs[..n][i] == docs[i]
      {
      }
    }
  }

  /**
   * A group that disappears and comes back keeps its id: a row of a later pass whose key
   * was some row's key in an earlier pass gets that row's id, whatever passes came between.
   */
  lemma ReturningGroupKeepsId(ids: LegacyIds, hash: Value -> Hash, first: seq<Doc>, between: seq<Doc>,
                              doc: Doc, i: nat)
    requires LegacyMinted(ids)
    requires i < |first| && KeyOf(hash, first[i]) == KeyOf(hash, doc)
    ensures var (ids1, oids1) := LegacyAssignAll(ids, hash, first);
            LegacyAssign(LegacyAssignAll(ids1, hash, between).0, KeyOf(hash, doc)).1 == oids1[i]
  {
    var (ids1, oids1) := LegacyAssignAll(ids, hash, first);
    LegacyIdsPersist(ids, hash, first);
    LegacyIdsPersist(ids1, hash, between);
  }

  /** A minted id is new: no key held it before. */
  lemma LegacyMintedIdIsFresh(ids: LegacyIds, h: Hash)
    requires LegacyMinted(ids) && h !in ids.hashToOid
    ensures forall h' :: h' in ids.hashToOid ==> ids.hashToOid[h'] != LegacyAssign(ids, h).1
    ensures LegacyMinted(LegacyAssign(ids, h).0)
  {
  }

  // ---------------------------------------------------------------------------------------
  // The reconciliation pass (`update`, lines 56-88)

  /**
   * One row of the `results.forEach` loop (lines 64-79): a row whose id is not published is
   * added, and only with a single-value field is its value stored; a published row with a
   * single-value field that differs is changed and its value stored.
   */
  function LegacyStep(published: map<Oid, Value>, oid: Oid, doc: Doc, field: Option<string>,
                      transform: Option<Doc -> Doc>): (r: (map<Oid, Value>, seq<Event>))
    ensures r.0 == if IsSet(field) then published[oid := Get(doc, field.value)] else published
    ensures r.1 == RowEvents(published, oid, doc, field, transform)
  {
    var shown := Shown(doc, transform);
    if IsPublished(published, oid) then
      if IsSet(field) && published[oid] != Get(doc, field.value) then
        (published[oid := Get(doc, field.value)], [Changed(oid, shown)])
      else (published, [])
    else if IsSet(field) then (published[oid := Get(doc, field.value)], [Added(oid, shown)])
    else (published, [Added(oid, shown)])
  }

  /** The `results.forEach` loop over rows with the given ids. */
  function LegacyAddPhase(published: map<Oid, Value>, oids: seq<Oid>, docs: seq<Doc>, field: Option<string>,
                          transform: Option<Doc -> Doc>): (map<Oid, Value>, seq<Event>)
    requires |oids| == |docs|
    decreases |docs|
  {
    if docs == [] then (published, [])
    else
      var (p, events) := LegacyAddPhase(published, oids[..|oids| - 1], docs[..|docs| - 1], field, transform);
      var (p', e) := LegacyStep(p, oids[|oids| - 1], docs[|docs| - 1], field, transform);
      (p', events + e)
  }

  /** The outcome of a pass: the rows' ids, the add/change events, the retracted ids, the new state. */
  datatype LegacyResult = LegacyResult(oids: seq<Oid>, changes: seq<Event>, removed: set<Oid>,
                                       published: map<Oid, Value>, ids: LegacyIds)

  /** The whole pass: ids, the loop over the rows, then retraction of the stale entries. */
  function LegacyPass(ids: LegacyIds, hash: Value -> Hash, published: map<Oid, Value>, docs: seq<Doc>,
                      field: Option<string>, transform: Option<Doc -> Doc>): LegacyResult
  {
    var (ids', oids) := LegacyAssignAll(ids, hash, docs);
    var (p, changes) := LegacyAddPhase(published, oids, docs, field, transform);
    var stale := Stale(p, oids);
    LegacyResult(oids, changes, stale, p - stale, ids')
  }

  /** With a single-value field the root loop is the current loop, row for row. */
  lemma {:induction false} LegacyAgreesWithField(published: map<Oid, Value>, oids: seq<Oid>, docs: seq<Doc>,
                                                 field: Option<string>, transform: Option<Doc -> Doc>)
    requires |oids| == |docs| && IsSet(field)
    ensures LegacyAddPhase(published, oids, docs, field, transform) == AddPhase(published, oids, docs, field, transform)
    decreases |docs|
  {
    if docs != [] {
      var n := |docs| - 1;
      LegacyAgreesWithField(published, oids[..n], docs[..n], field, transform);
    }
  }

  /**
   * Without a single-value field the loop never writes the snapshot, and each row is judged
   * against the snapshot as it was: added unless its id already holds a truthy value.
   */
  lemma {:induction false} LegacyWithoutFieldKeepsSnapshot(published: map<Oid, Value>, oids: seq<Oid>, docs: seq<Doc>,
                                                           field: Option<string>, transform: Option<Doc -> Doc>)
    requires |oids| == |docs| && !IsSet(field)
    ensures LegacyAddPhase(published, oids, docs, field, transform) == (published, Rowwise(published, oids, docs, field, transform))
    decreases |docs|
  {
    if docs != [] {
      var n := |docs| - 1;
      LegacyWithoutFieldKeepsSnapshot(published, oids[..n], docs[..n], field, transform);
    }
  }

  /**
   * Every event of the loop is an `added` or a `changed`, and a `changed` occurs only with a
   * single-value field.
   */
  lemma {:induction false} LegacyEventKinds(published: map<Oid, Value>, oids: seq<Oid>, docs: seq<Doc>,
                                            field: Option<string>, transform: Option<Doc -> Doc>)
    requires |oids| == |docs|
    ensures forall e :: e in LegacyAddPhase(published, oids, docs, field, transform).1 ==> e.Added? || e.Changed?
    ensures !IsSet(field) ==> forall e :: e in LegacyAddPhase(published, oids, docs, field, transform).1 ==> e.Added?
    decreases |docs|
  {
    if docs != [] {
      var n := |docs| - 1;
      LegacyEventKinds(published, oids[..n], docs[..n], field, transform);
    }
  }

  /**
   * With a single-value field, after a pass the snapshot holds exactly the ids of this
   * pass's rows, and the retracted ids are exactly the previously published ids no row has
   * now. (That no id is ever released is `LegacyIdsPersist`.)
   */
  lemma LegacyPassKeys(ids: LegacyIds, hash: Value -> Hash, published: map<Oid, Value>, docs: seq<Doc>,
                       field: Option<string>, transform: Option<Doc -> Doc>)
    requires IsSet(field)
    ensures var r := LegacyPass(ids, hash, published, docs, field, transform);
            && r.published.Keys == OidSet(r.oids)
            && r.removed == published.Keys - OidSet(r.oids)
  {
    var (ids', oids) := LegacyAssignAll(ids, hash, docs);
    LegacyAgreesWithField(published, oids, docs, field, transform);
    AddPhaseKeys(published, oids, docs, field, transform);
    var p := LegacyAddPhase(published, oids, docs, field, transform).0;
    assert Stale(p, oids) == published.Keys - OidSet(oids);
    assert (p - Stale(p, oids)).Keys == OidSet(oids);
  }

  /**
   * Without a single-value field, from the empty snapshot the publication starts with, every
   * pass adds every row again, in row order, stores nothing and retracts nothing, even for
   * rows whose group it has added before.
   */
  lemma LegacyWithoutFieldReaddsEverything(ids: LegacyIds, hash: Value -> Hash, docs: seq<Doc>,
                                           field: Option<string>, transform: Option<Doc -> Doc>)
    requires !IsSet(field)
    ensures var r := LegacyPass(ids, hash, map[], docs, field, transform);
            && r.published == map[] && r.removed == {}
            && |r.changes| == |docs|
            && forall i :: 0 <= i < |docs| ==> r.changes[i] == Added(r.oids[i], Shown(docs[i], transform))
  {
    var oids := LegacyAssignAll(ids, hash, docs).1;
    LegacyWithoutFieldKeepsSnapshot(map[], oids, docs, field, transform);
    RowwiseOnEmpty(oids, docs, field, transform);
    assert Stale(map[], oids) == {};
  }

  /**
   * The add loop only adds entries, and only for the rows' ids: every entry it finds stays,
   * and an entry whose id no row has keeps its value.
   */
  lemma {:induction false} LegacyAddPhaseFrame(published: map<Oid, Value>, oids: seq<Oid>, docs: seq<Doc>,
                                               field: Option<string>, transform: Option<Doc -> Doc>)
    requires |oids| == |docs|
    ensures var p := LegacyAddPhase(published, oids, docs, field, transform).0;
            && published.Keys <= p.Keys <= published.Keys + OidSet(oids)
            && forall o :: o in published && o !in oids ==> p[o] == published[o]
    decreases |docs|
  {
    if docs != [] {
      var n := |docs| - 1;
      LegacyAddPhaseFrame(published, oids[..n], docs[..n], field, transform);
      assert oids == oids[..n] + [oids[n]];
      assert OidSet(oids) == OidSet(oids[..n]) + {oids[n]};
    }
  }

  /**
   * Oids in the snapshot that no row has now are retracted and deleted; nothing else in the
   * snapshot is deleted, and entries of ids no row has now are not otherwise changed.
   */
  lemma LegacyPassRemovals(ids: LegacyIds, hash: Value -> Hash, published: map<Oid, Value>, docs: seq<Doc>,
                           field: Option<string>, transform: Option<Doc -> Doc>)
    ensures var r := LegacyPass(ids, hash, published, docs, field, transform);
            && r.removed == published.Keys - OidSet(r.oids)
            && (forall o :: o in r.removed ==> o !in r.published)
            && (forall o :: o in published && o !in r.removed ==> o in r.published)
  {
    var (ids', oids) := LegacyAssignAll(ids, hash, docs);
    LegacyAddPhaseFrame(published, oids, docs, field, transform);
    var p := LegacyAddPhase(published, oids, docs, field, transform).0;
    assert Stale(p, oids) == published.Keys - OidSet(oids);
  }

  // ---------------------------------------------------------------------------------------
  // Match-stage setup (lines 44-50)

  /** `pipeline.push(matchStage)` of a fresh empty `{ $match: {} }`. */
  method AppendMatchStage(pipeline: seq<Stage>) returns (withMatch: seq<Stage>, stage: Stage)
    ensures fresh(stage) && HasMatch(stage) && stage.criteria == map[]
    ensures withMatch == pipeline + [stage]
  {
    stage := new Stage({"$match"}, map[]);
    withMatch := pipeline + [stage];
  }

  /** A `$match` stage appended to a pipeline that had none is the pipeline's match stage. */
  lemma AppendedStageIsFirstMatch(pipeline: seq<Stage>, stage: Stage)
    requires forall i :: 0 <= i < |pipeline| ==> !HasMatch(pipeline[i])
    requires HasMatch(stage)
    ensures GetPipelineMatchStage(Some(pipeline + [stage])) == Some(stage)
  {
    var p := pipeline + [stage];
    assert FirstMatchAt(p, |pipeline|);
    var i :| FirstMatchAt(p, i) && p[i] == GetPipelineMatchStage(Some(p)).value;
    if 0 <= i < |pipeline| {
      assert p[i] == pipeline[i];
    }
  }

  // ---------------------------------------------------------------------------------------
  // Expiry delay (line 114)

  /** The fetched oldest document (lines 103-107): only `_id` and the window field are fetched. */
  function Projected(doc: Doc, field: string): (r: Doc)
    ensures forall k :: k in r <==> k in doc && (k == "_id" || k == field)
    ensures forall k :: k in r ==> r[k] == doc[k]
  {
    map k | k in doc && (k == "_id" || k == field) :: doc[k]
  }

  /**
   * Line 114 as written: the delay reads `oldestDocument.timestamp`, whatever the window
   * field is. With any other field the projected document has no `timestamp`, and calling
   * `getTime` on `undefined` throws.
   */
  function LegacyNextUpdateAsWritten(window: Window, now: int, oldest: Option<Doc>): (r: Result<Option<int>>)
    ensures oldest.None? ==> r == Ok(None)
    ensures oldest.Some? && window.field != "timestamp" ==> r.Err?
    ensures r.Ok? && r.value.Some? ==>
              && oldest.Some? && Get(oldest.value, "timestamp").Date?
              && now + r.value.value == Get(oldest.value, "timestamp").millis + window.millis
  {
    if oldest.None? then Ok(None)
    else
      var fetched := Projected(oldest.value, window.field);
      match TimeOf(Get(fetched, "timestamp"))
      case Err(e) => Err(e)
      case Ok(time) => Ok(Some(window.millis - (now - time)))
  }

  /** Only when the window field is `timestamp` does line 114 agree with the intended delay. */
  lemma LegacyNextUpdateAgreesOnTimestamp(window: Window, now: int, oldest: Option<Doc>)
    requires window.field == "timestamp"
    ensures LegacyNextUpdateAsWritten(window, now, oldest) == Aggregator.ExpiryDelay(Some(window), now, oldest)
  {
    if oldest.Some? {
      assert Get(Projected(oldest.value, window.field), "timestamp") == Get(oldest.value, "timestamp");
    }
  }

  /**
   * A document whose window field `createdAt` holds a date inside the window: line 114
   * throws, where the intended delay is the 50 seconds until the document leaves the window.
   */
  lemma NextUpdateCounterexample()
    ensures var oldest := map["_id" := Num(1), "createdAt" := Date(0, 90000)];
            && LegacyNextUpdateAsWritten(Window("createdAt", 60000), 100000, Some(oldest)).Err?
            && Aggregator.ExpiryDelay(Some(Window("createdAt", 60000)), 100000, Some(oldest)) == Ok(Some(50000))
  {
    var oldest := map["_id" := Num(1), "createdAt" := Date(0, 90000)];
    assert Get(oldest, "createdAt") == Date(0, 90000);
  }

  // ---------------------------------------------------------------------------------------
  // The publication

  class LegacyPublication {
    const hash: Value -> Hash
    const singleValueField: Option<string>
    const transform: Option<Doc -> Doc>
    const pastPeriod: Option<Window>
    var hashToOidMap: map<Hash, Oid>
    /** How many ids have been minted; stands for the `Mongo.ObjectID` generator. */
    var minted: nat
    /** Public id -> the stored single-value field; empty without a single-value field. */
    var published: map<Oid, Value>
    var pipeline: seq<Stage>
    /** The stage that receives the time-window bound; `null` stands for `false`. */
    var matchStage: Stage?

    function Ids(): LegacyIds
      reads this
    {
      LegacyIds(hashToOidMap, minted)
    }

    /** Every id was minted, and with a time window `matchStage` is the pipeline's match stage. */
    ghost predicate Valid()
      reads this
    {
      && LegacyMinted(Ids())
      && (pastPeriod.Some? ==> matchStage != null && GetPipelineMatchStage(Some(pipeline)) == Some(matchStage))
      && (pastPeriod.None? ==> matchStage == null)
    }

    /**
     * The set-up of lines 35-50: empty state, and with a time window the pipeline's match
     * stage is located, or a fresh empty one is pushed onto the pipeline and kept.
     */
    constructor (hash: Value -> Hash, pipeline: seq<Stage>, singleValueField: Option<string>,
                 transform: Option<Doc -> Doc>, pastPeriod: Option<Window>)
      ensures Valid()
      ensures this.hash == hash && this.singleValueField == singleValueField
      ensures this.transform == transform && this.pastPeriod == pastPeriod
      ensures hashToOidMap == map[] && published == map[]
      ensures pastPeriod.None? ==> this.pipeline == pipeline && matchStage == null
      ensures pastPeriod.Some? && GetPipelineMatchStage(Some(pipeline)).Some? ==>
                this.pipeline == pipeline && matchStage == GetPipelineMatchStage(Some(pipeline)).value
      ensures pastPeriod.Some? && GetPipelineMatchStage(Some(pipeline)).None? ==>
                && fresh(matchStage) && this.pipeline == pipeline + [matchStage]
                && HasMatch(matchStage) && matchStage.criteria == map[]
    {
      this.hash, this.singleValueField, this.transform, this.pastPeriod := hash, singleValueField, transform, pastPeriod;
      hashToOidMap, minted, published := map[], 0, map[];
      var found: Stage? := null;
      var withMatch := pipeline;
      if pastPeriod.Some? {
        var lookup := GetPipelineMatchStage(Some(pipeline));
        if lookup.Some? {
          found := lookup.value;
        } else {
          var stage;
          withMatch, stage := AppendMatchStage(pipeline);
          AppendedStageIsFirstMatch(pipeline, stage);
          found := stage;
        }
      }
      this.pipeline, matchStage := withMatch, found;
    }

    /** `getOid(hashToOidMap, doc)` (lines 7-13). */
    method GetOid(doc: Doc) returns (oid: Oid)
      modifies this`hashToOidMap, this`minted
      ensures (Ids(), oid) == LegacyAssign(old(Ids()), KeyOf(hash, doc))
    {
      var oidKey := KeyOf(hash, doc);
      if oidKey !in hashToOidMap {
        hashToOidMap := hashToOidMap[oidKey := minted];
        minted := minted + 1;
      }
      oid := hashToOidMap[oidKey];
    }

    /**
     * `update` (lines 56-88), given the rows the aggregation returns and the current time:
     * with a non-zero window width the bound goes into `matchStage`, then one pass runs.
     */
    method Update(results: seq<Doc>, now: int) returns (events: seq<Event>)
      requires Valid()
      modifies this`published, this`hashToOidMap, this`minted, matchStage
      ensures Valid()
      ensures var r := LegacyPass(old(Ids()), hash, old(published), results, singleValueField, transform);
              && |r.changes| <= |events| && events[..|r.changes|] == r.changes
              && EnumeratesRemovals(events[|r.changes|..], r.removed)
              && published == r.published && Ids() == r.ids
      ensures pastPeriod.Some? && pastPeriod.value.millis != 0 ==>
                matchStage.criteria == old(matchStage.criteria)[pastPeriod.value.field := After(now - pastPeriod.value.millis)]
      ensures (pastPeriod.None? || pastPeriod.value.millis == 0) && matchStage != null ==>
                matchStage.criteria == old(matchStage.criteria)
    {
      if pastPeriod.Some? && pastPeriod.value.millis != 0 {
        matchStage.criteria := matchStage.criteria[pastPeriod.value.field := After(now - pastPeriod.value.millis)];
      }
      LegacyIdsPersist(Ids(), hash, results);
      var resultOids, changes := PublishResults(results);
      var removals := RetractStale(resultOids);
      events := changes + removals;
      assert events[..|changes|] == changes && events[|changes|..] == removals;
    }

    /** `results.forEach(...)` (lines 64-80). */
    method PublishResults(results: seq<Doc>) returns (resultOids: seq<Oid>, events: seq<Event>)
      modifies this`published, this`hashToOidMap, this`minted
      ensures LegacyAssignAll(old(Ids()), hash, results) == (Ids(), resultOids)
      ensures LegacyAddPhase(old(published), resultOids, results, singleValueField, transform) == (published, events)
    {
      ghost var ids0, p0 := Ids(), published;
      resultOids, events := [], [];
      var i := 0;
      while i < |results|
        invariant 0 <= i <= |results|
        invariant LegacyAssignAll(ids0, hash, results[..i]) == (Ids(), resultOids)
        invariant LegacyAddPhase(p0, resultOids, results[..i], singleValueField, transform) == (published, events)
      {
        var doc := results[i];
        var oid := GetOid(doc);
        ghost var prevOids := resultOids;
        resultOids := resultOids + [oid];
        var emitted := PublishRow(oid, doc);
        events := events + emitted;
        assert results[..i + 1][..i] == results[..i] && results[..i + 1][i] == doc;
        assert resultOids[..i] == prevOids && resultOids[i] == oid;
        i := i + 1;
      }
      assert results[..i] == results;
    }

    /** One row (lines 67-79). */
    method PublishRow(oid: Oid, doc: Doc) returns (emitted: seq<Event>)
      modifies this`published
      ensures (published, emitted) == LegacyStep(old(published), oid, doc, singleValueField, transform)
    {
      var transformedDocument := if transform.Some? then transform.value(doc) else doc;
      emitted := [];
      if oid in published && Truthy(published[oid]) {
        if IsSet(singleValueField) && published[oid] != Get(doc, singleValueField.value) {
          emitted := [Changed(oid, transformedDocument)];
          published := published[oid := Get(doc, singleValueField.value)];
        }
      } else {
        emitted := [Added(oid, transformedDocument)];
        if IsSet(singleValueField) {
          published := published[oid := Get(doc, singleValueField.value)];
        }
      }
    }

    /** `Object.keys(published).forEach(...)` (lines 82-87): stale entries go; ids stay. */
    method RetractStale(resultOids: seq<Oid>) returns (removals: seq<Event>)
      modifies this`published
      ensures EnumeratesRemovals(removals, Stale(old(published), resultOids))
      ensures published == old(published) - Stale(old(published), resultOids)
    {
      ghost var p1 := published;
      ghost var stale := Stale(p1, resultOids);
      ghost var visited: set<Oid> := {};
      var keys := published.Keys;
      removals := [];
      while keys != {}
        invariant keys <= p1.Keys && visited == p1.Keys - keys
        invariant published == p1 - (stale * visited)
        invariant EnumeratesRemovals(removals, stale * visited)
        decreases keys
      {
        var oid :| oid in keys;
        ghost var done := stale * visited;
        if oid !in resultOids {
          assert oid in stale && oid !in done;
          EnumeratesOneMore(removals, done, oid);
          removals := removals + [Removed(oid)];
          published := published - {oid};
          assert stale * (visited + {oid}) == done + {oid};
        } else {
          assert stale * (visited + {oid}) == done;
        }
        keys := keys - {oid};
        visited := visited + {oid};
      }
      assert stale * visited == stale;
    }
  }
}
