/**
 * One reconciliation pass of the publication (the body of `update`), as functions on values:
 * every result row gets its public id, is compared with the `published` snapshot and yields
 * an `added` or `changed` event or none; afterwards every snapshot entry whose id is not
 * among this pass's ids is retracted and its id released.
 *
 * `Publication.Update` runs the same pass in place and is specified by `Pass`; the lemmas
 * below state what a pass guarantees.
 */
module Reconcile {
  import opened Values
  import opened PublicationIds

  /** What the publication tells its subscribers. */
  datatype Event = Added(oid: Oid, doc: Doc) | Changed(oid: Oid, doc: Doc) | Removed(oid: Oid)

  /** `published[oid]` is truthy: the JavaScript test that decides between add and compare. */
  predicate IsPublished(published: map<Oid, Value>, oid: Oid) {
    oid in published && Truthy(published[oid])
  }

  /** What the snapshot keeps of a row: its single-value field, or `true` without one. */
  function StoredValue(doc: Doc, field: Option<string>): Value {
    if IsSet(field) then Get(doc, field.value) else Bool(true)
  }

  /** The row as it is sent: `transform(doc)` when a transform is set. */
  function Shown(doc: Doc, transform: Option<Doc -> Doc>): Doc {
    if transform.Some? then transform.value(doc) else doc
  }

  /**
   * One row of the `results.forEach` loop, given the row's id. Whatever the branch, the
   * snapshot ends up holding the row's stored value under its id (an unchanged value is the
   * same value), and the events are the row's reference events.
   */
  function Step(published: map<Oid, Value>, oid: Oid, doc: Doc, field: Option<string>,
                transform: Option<Doc -> Doc>): (r: (map<Oid, Value>, seq<Event>))
    ensures r.0 == published[oid := StoredValue(doc, field)]
    ensures r.1 == RowEvents(published, oid, doc, field, transform)
  {
    var shown := Shown(doc, transform);
    if IsPublished(published, oid) then
      if IsSet(field) then
        if published[oid] != Get(doc, field.value) then
          (published[oid := Get(doc, field.value)], [Changed(oid, shown)])
        else (published, [])
      else (published[oid := Bool(true)], [])
    else (published[oid := StoredValue(doc, field)], [Added(oid, shown)])
  }

  /** The `results.forEach` loop over rows with the given ids: the new snapshot and the events. */
  function AddPhase(published: map<Oid, Value>, oids: seq<Oid>, docs: seq<Doc>, field: Option<string>,
                    transform: Option<Doc -> Doc>): (map<Oid, Value>, seq<Event>)
    requires |oids| == |docs|
    decreases |docs|
  {
    if docs == [] then (published, [])
    else
      var (p, events) := AddPhase(published, oids[..|oids| - 1], docs[..|docs| - 1], field, transform);
      var (p', e) := Step(p, oids[|oids| - 1], docs[|docs| - 1], field, transform);
      (p', events + e)
  }

  /** The ids `getOid` hands out to the rows in order, and the id tables afterwards. */
  function AssignAll(t: IdTables, hash: Value -> Hash, docs: seq<Doc>): (r: (IdTables, seq<Oid>))
    ensures |r.1| == |docs|
    decreases |docs|
  {
    if docs == [] then (t, [])
    else
      var (t', oids) := AssignAll(t, hash, docs[..|docs| - 1]);
      var (t'', oid) := Assign(t', KeyOf(hash, docs[|docs| - 1]));
      (t'', oids + [oid])
  }

  function OidSet(oids: seq<Oid>): set<Oid> {
    set o | o in oids
  }

  /** The snapshot entries whose id is not among this pass's ids (`resultOids.indexOf(oid) < 0`). */
  function Stale(published: map<Oid, Value>, oids: seq<Oid>): set<Oid> {
    set o | o in published && o !in oids
  }

  /** `removeOid` applied to every id of `gone`, in any order. */
  function ReleaseAll(t: IdTables, gone: set<Oid>): IdTables {
    IdTables(map h | h in t.hashToOid && t.hashToOid[h] !in gone :: t.hashToOid[h], t.oidToHash - gone, t.minted)
  }

  /** The outcome of a pass: the rows' ids, the add/change events, the retracted ids, the new state. */
  datatype PassResult = PassResult(oids: seq<Oid>, changes: seq<Event>, removed: set<Oid>,
                                   published: map<Oid, Value>, tables: IdTables)

  function Pass(t: IdTables, hash: Value -> Hash, published: map<Oid, Value>, docs: seq<Doc>,
                field: Option<string>, transform: Option<Doc -> Doc>): PassResult
  {
    var (t', oids) := AssignAll(t, hash, docs);
    var (p, changes) := AddPhase(published, oids, docs, field, transform);
    var stale := Stale(p, oids);
    PassResult(oids, changes, stale, p - stale, ReleaseAll(t', stale))
  }

  /**
   * `es` is one `removed` event for each id of `gone` and nothing else, in some order (the
   * order of `Object.keys(published)`, which the model leaves open).
   */
  predicate EnumeratesRemovals(es: seq<Event>, gone: set<Oid>) {
    && (forall i :: 0 <= i < |es| ==> es[i].Removed? && es[i].oid in gone)
    && (forall o :: o in gone ==> Removed(o) in es)
    && Distinct(es)
  }

  /**
   * The reference for one row: judged against the snapshot as it was before the pass, a row
   * whose id is not published is added, a published row with a single-value field that
   * differs is changed, and any other row yields nothing.
   */
  function RowEvents(published: map<Oid, Value>, oid: Oid, doc: Doc, field: Option<string>,
                     transform: Option<Doc -> Doc>): seq<Event>
  {
    if !IsPublished(published, oid) then [Added(oid, Shown(doc, transform))]
    else if IsSet(field) && published[oid] != Get(doc, field.value) then [Changed(oid, Shown(doc, transform))]
    else []
  }

  /** The reference events of all rows, in row order. */
  function Rowwise(published: map<Oid, Value>, oids: seq<Oid>, docs: seq<Doc>, field: Option<string>,
                   transform: Option<Doc -> Doc>): seq<Event>
    requires |oids| == |docs|
    decreases |docs|
  {
    if docs == [] then []
    else Rowwise(published, oids[..|oids| - 1], docs[..|docs| - 1], field, transform)
         + RowEvents(published, oids[|oids| - 1], docs[|docs| - 1], field, transform)
  }

  // ---------------------------------------------------------------------------------------
  // The add phase

  /** The snapshot after the loop holds the old ids plus this pass's ids; others keep their value. */
  lemma {:induction false} AddPhaseKeys(published: map<Oid, Value>, oids: seq<Oid>, docs: seq<Doc>,
                                        field: Option<string>, transform: Option<Doc -> Doc>)
    requires |oids| == |docs|
    ensures AddPhase(published, oids, docs, field, transform).0.Keys == published.Keys + OidSet(oids)
    ensures forall o :: o in published && o !in oids ==>
              AddPhase(published, oids, docs, field, transform).0[o] == published[o]
    decreases |docs|
  {
    if docs != [] {
      var n := |docs| - 1;
      AddPhaseKeys(published, oids[..n], docs[..n], field, transform);
      assert oids == oids[..n] + [oids[n]];
      assert OidSet(oids) == OidSet(oids[..n]) + {oids[n]};
    }
  }

  /**
   * After the loop, the entry of each row's id is that row's stored value (its single-value
   * field, or `true`); when ids repeat, the last row with the id decides.
   */
  lemma {:induction false} AddPhaseStores(published: map<Oid, Value>, oids: seq<Oid>, docs: seq<Doc>,
                                          field: Option<string>, transform: Option<Doc -> Doc>, i: nat)
    requires |oids| == |docs| && i < |docs|
    requires forall j :: i < j < |docs| ==> oids[j] != oids[i]
    ensures oids[i] in AddPhase(published, oids, docs, field, transform).0
    ensures AddPhase(published, oids, docs, field, transform).0[oids[i]] == StoredValue(docs[i], field)
    decreases |docs|
  {
    var n := |docs| - 1;
    if i < n {
      AddPhaseStores(published, oids[..n], docs[..n], field, transform, i);
    }
  }

  /** Every event of the loop is an `added` or a `changed`; without a single-value field only `added`. */
  lemma {:induction false} AddPhaseEventKinds(published: map<Oid, Value>, oids: seq<Oid>, docs: seq<Doc>,
                                              field: Option<string>, transform: Option<Doc -> Doc>)
    requires |oids| == |docs|
    ensures forall e :: e in AddPhase(published, oids, docs, field, transform).1 ==> e.Added? || e.Changed?
    ensures !IsSet(field) ==> forall e :: e in AddPhase(published, oids, docs, field, transform).1 ==> e.Added?
    ensures |AddPhase(published, oids, docs, field, transform).1| <= |docs|
    decreases |docs|
  {
    if docs != [] {
      var n := |docs| - 1;
      AddPhaseEventKinds(published, oids[..n], docs[..n], field, transform);
    }
  }

  /**
   * Diff minimality: when the rows' ids are distinct, the loop emits exactly the reference
   * events, each row judged against the snapshot from before the pass.
   */
  lemma {:induction false} AddPhaseIsRowwise(published: map<Oid, Value>, oids: seq<Oid>, docs: seq<Doc>,
                                             field: Option<string>, transform: Option<Doc -> Doc>)
    requires |oids| == |docs| && Distinct(oids)
    ensures AddPhase(published, oids, docs, field, transform).1 == Rowwise(published, oids, docs, field, transform)
    decreases |docs|
  {
    if docs != [] {
      var n := |docs| - 1;
      AddPhaseIsRowwise(published, oids[..n], docs[..n], field, transform);
      AddPhaseKeys(published, oids[..n], docs[..n], field, transform);
      var p := AddPhase(published, oids[..n], docs[..n], field, transform).0;
      assert oids[n] !in oids[..n];
      assert oids[n] in p <==> oids[n] in published;
      assert oids[n] in p ==> p[oids[n]] == published[oids[n]];
    }
  }

  // ---------------------------------------------------------------------------------------
  // Id assignment and release

  /**
   * Assigning ids to the rows keeps the tables consistent, never changes an existing entry,
   * and leaves each row's key mapped to the id it got.
   */
  lemma AssignAllMaps(t: IdTables, hash: Value -> Hash, docs: seq<Doc>)
    requires Consistent(t)
    ensures var r := AssignAll(t, hash, docs);
            && Consistent(r.0)
            && (forall h :: h in t.hashToOid ==> h in r.0.hashToOid && r.0.hashToOid[h] == t.hashToOid[h])
            && (forall i :: 0 <= i < |docs| ==>
                  KeyOf(hash, docs[i]) in r.0.hashToOid && r.0.hashToOid[KeyOf(hash, docs[i])] == r.1[i])
  {
    AssignAllConsistent(t, hash, docs);
    AssignAllForward(t, hash, docs);
  }

  lemma {:induction false} AssignAllConsistent(t: IdTables, hash: Value -> Hash, docs: seq<Doc>)
    requires Consistent(t)
    ensures Consistent(AssignAll(t, hash, docs).0)
    decreases |docs|
  {
    if docs != [] {
      var n := |docs| - 1;
      AssignAllConsistent(t, hash, docs[..n]);
      AssignKeepsConsistent(AssignAll(t, hash, docs[..n]).0, KeyOf(hash, docs[n]));
    }
  }

  /** The forward map only grows, and each row's key ends up mapped to the row's id. */
  lemma {:induction false} AssignAllForward(t: IdTables, hash: Value -> Hash, docs: seq<Doc>)
    ensures var r := AssignAll(t, hash, docs);
            && (forall h :: h in t.hashToOid ==> h in r.0.hashToOid && r.0.hashToOid[h] == t.hashToOid[h])
            && (forall i :: 0 <= i < |docs| ==>
                  KeyOf(hash, docs[i]) in r.0.hashToOid && r.0.hashToOid[KeyOf(hash, docs[i])] == r.1[i])
    decreases |docs|
  {
    if docs != [] {
      var n := |docs| - 1;
      AssignAllForward(t, hash, docs[..n]);
      var (t', oids) := AssignAll(t, hash, docs[..n]);
      var h := KeyOf(hash, docs[n]);
      var (t'', oid) := Assign(t', h);
      assert AssignAll(t, hash, docs) == (t'', oids + [oid]);
      assert forall k :: k in t'.hashToOid ==> k in t''.hashToOid && t''.hashToOid[k] == t'.hashToOid[k];
      forall i | 0 <= i < |docs|
        ensures KeyOf(hash, docs[i]) in t''.hashToOid && t''.hashToOid[KeyOf(hash, docs[i])] == (oids + [oid])[i]
      {
        if i < n {
          assert docs[..n][i] == docs[i];
        }
      }
    }
  }

  /** Assigning ids adds exactly the rows' ids to the ids the tables know. */
  lemma {:induction false} AssignAllIds(t: IdTables, hash: Value -> Hash, docs: seq<Doc>)
    requires Consistent(t)
    ensures AssignAll(t, hash, docs).0.oidToHash.Keys == t.oidToHash.Keys + OidSet(AssignAll(t, hash, docs).1)
    decreases |docs|
  {
    if docs != [] {
      var n := |docs| - 1;
      AssignAllIds(t, hash, docs[..n]);
      AssignAllConsistent(t, hash, docs[..n]);
      var (t', oids) := AssignAll(t, hash, docs[..n]);
      var h := KeyOf(hash, docs[n]);
      var (t'', oid) := Assign(t', h);
      AssignKeepsConsistent(t', h);
      assert AssignAll(t, hash, docs) == (t'', oids + [oid]);
      assert t''.oidToHash.Keys == t'.oidToHash.Keys + {oid};
      assert OidSet(oids + [oid]) == OidSet(oids) + {oid};
    }
  }

  /** Rows with distinct keys get distinct ids. */
  lemma AssignAllDistinct(t: IdTables, hash: Value -> Hash, docs: seq<Doc>)
    requires Consistent(t)
    requires forall i, j :: 0 <= i < j < |docs| ==> KeyOf(hash, docs[i]) != KeyOf(hash, docs[j])
    ensures Distinct(AssignAll(t, hash, docs).1)
  {
    AssignAllMaps(t, hash, docs);
    var (t', oids) := AssignAll(t, hash, docs);
    forall i, j | 0 <= i < j < |oids|
      ensures oids[i] != oids[j]
    {
      assert t'.oidToHash[oids[i]] == KeyOf(hash, docs[i]);
      assert t'.oidToHash[oids[j]] == KeyOf(hash, docs[j]);
    }
  }

  /** When every row's key is already mapped, assigning ids changes nothing and reads the map. */
  lemma {:induction false} AssignAllKnown(t: IdTables, hash: Value -> Hash, docs: seq<Doc>)
    requires forall i :: 0 <= i < |docs| ==> KeyOf(hash, docs[i]) in t.hashToOid
    ensures AssignAll(t, hash, docs).0 == t
    ensures forall i :: 0 <= i < |docs| ==> AssignAll(t, hash, docs).1[i] == t.hashToOid[KeyOf(hash, docs[i])]
    decreases |docs|
  {
    if docs != [] {
      var n := |docs| - 1;
      assert forall i :: 0 <= i < n ==> docs[..n][i] == docs[i];
      AssignAllKnown(t, hash, docs[..n]);
    }
  }

  /** Releasing one more id is releasing the larger set. */
  lemma ReleaseOneMore(t: IdTables, gone: set<Oid>, oid: Oid)
    requires Consistent(t) && oid !in gone
    ensures Release(ReleaseAll(t, gone), oid) == ReleaseAll(t, gone + {oid})
  {
    var r := ReleaseAll(t, gone);
    var left := Release(r, oid).hashToOid;
    var right := ReleaseAll(t, gone + {oid}).hashToOid;
    assert left.Keys == right.Keys;
    assert Release(r, oid).oidToHash == ReleaseAll(t, gone + {oid}).oidToHash;
  }

  /** Retracting one more id extends an enumeration of the retracted ids. */
  lemma EnumeratesOneMore(es: seq<Event>, gone: set<Oid>, oid: Oid)
    requires EnumeratesRemovals(es, gone) && oid !in gone
    ensures EnumeratesRemovals(es + [Removed(oid)], gone + {oid})
  {
    var es' := es + [Removed(oid)];
    forall o | o in gone + {oid}
      ensures Removed(o) in es'
    {
      if o != oid {
        var i :| 0 <= i < |es| && es[i] == Removed(o);
        assert es'[i] == Removed(o);
      } else {
        assert es'[|es|] == Removed(oid);
      }
    }
    forall i, j | 0 <= i < j < |es'|
      ensures es'[i] != es'[j]
    {
      if j == |es| {
        assert es[i].oid in gone;
      }
    }
  }

  /** Distinct removals of ids from `gone` are at most as many as `gone` has ids. */
  lemma {:induction false} RemovalsFit(es: seq<Event>, gone: set<Oid>)
    requires forall i :: 0 <= i < |es| ==> es[i].Removed? && es[i].oid in gone
    requires Distinct(es)
    ensures |es| <= |gone|
    decreases |es|
  {
    if es != [] {
      var n := |es| - 1;
      var last := es[n].oid;
      forall i | 0 <= i < n
        ensures es[..n][i].oid in gone - {last}
      {
        assert es[i] != es[n];
      }
      RemovalsFit(es[..n], gone - {last});
    }
  }

  /** Releasing a set of ids keeps the tables consistent and every other key's id. */
  lemma ReleaseAllKeeps(t: IdTables, gone: set<Oid>)
    requires Consistent(t)
    ensures Consistent(ReleaseAll(t, gone))
    ensures forall h :: h in t.hashToOid && t.hashToOid[h] !in gone ==>
              h in ReleaseAll(t, gone).hashToOid && ReleaseAll(t, gone).hashToOid[h] == t.hashToOid[h]
    ensures forall o :: o in gone ==> o !in ReleaseAll(t, gone).oidToHash
  {
  }

  // ---------------------------------------------------------------------------------------
  // Whole passes

  /**
   * After a pass the snapshot holds exactly the ids of this pass's rows; the retracted ids
   * are exactly the previously published ids that no row has now; the tables stay consistent
   * and no longer know the retracted ids.
   */
  lemma PassKeys(t: IdTables, hash: Value -> Hash, published: map<Oid, Value>, docs: seq<Doc>,
                 field: Option<string>, transform: Option<Doc -> Doc>)
    requires Consistent(t)
    ensures var r := Pass(t, hash, published, docs, field, transform);
            && r.published.Keys == OidSet(r.oids)
            && r.removed == published.Keys - OidSet(r.oids)
            && Consistent(r.tables)
            && forall o :: o in r.removed ==> o !in r.tables.oidToHash
  {
    var (t', oids) := AssignAll(t, hash, docs);
    var (p, changes) := AddPhase(published, oids, docs, field, transform);
    AddPhaseKeys(published, oids, docs, field, transform);
    AssignAllConsistent(t, hash, docs);
    var stale := Stale(p, oids);
    assert stale == published.Keys - OidSet(oids);
    ReleaseAllKeeps(t', stale);
    assert (p - stale).Keys == OidSet(oids);
    assert Pass(t, hash, published, docs, field, transform)
        == PassResult(oids, changes, stale, p - stale, ReleaseAll(t', stale));
  }

  /**
   * A pass keeps the snapshot and the id manager in step: when they knew the same ids before
   * the pass, they know the same ids after it.
   */
  lemma PassKeepsIdsAligned(t: IdTables, hash: Value -> Hash, published: map<Oid, Value>, docs: seq<Doc>,
                            field: Option<string>, transform: Option<Doc -> Doc>)
    requires Consistent(t) && published.Keys == t.oidToHash.Keys
    ensures var r := Pass(t, hash, published, docs, field, transform);
            r.published.Keys == r.tables.oidToHash.Keys
  {
    var (t', oids) := AssignAll(t, hash, docs);
    AssignAllIds(t, hash, docs);
    PassKeys(t, hash, published, docs, field, transform);
    var stale := Stale(AddPhase(published, oids, docs, field, transform).0, oids);
    assert ReleaseAll(t', stale).oidToHash.Keys == t'.oidToHash.Keys - stale;
  }

  /**
   * Idempotence: a second pass over rows with the same keys and the same stored values
   * (`===`, so a recomputed `Date` or object is not the same value) emits nothing, retracts
   * nothing and changes nothing, provided the rows have distinct keys and every stored value
   * is truthy. (A stored `0`, `""`, `false` or `null` makes the row count as unpublished,
   * so it is added again on every pass; see `FalsyValueIsAddedAgain`. A single-value field
   * holding a new `Date` of the same instant is changed; see `NewDateIsChanged`.)
   */
  lemma PassIsIdempotent(t: IdTables, hash: Value -> Hash, published: map<Oid, Value>, docs: seq<Doc>,
                         docs2: seq<Doc>, field: Option<string>, transform: Option<Doc -> Doc>)
    requires Consistent(t)
    requires forall i, j :: 0 <= i < j < |docs| ==> KeyOf(hash, docs[i]) != KeyOf(hash, docs[j])
    requires forall i :: 0 <= i < |docs| ==> Truthy(StoredValue(docs[i], field))
    requires |docs2| == |docs|
    requires forall i :: 0 <= i < |docs| ==> KeyOf(hash, docs2[i]) == KeyOf(hash, docs[i])
    requires forall i :: 0 <= i < |docs| ==> StoredValue(docs2[i], field) == StoredValue(docs[i], field)
    ensures var r1 := Pass(t, hash, published, docs, field, transform);
            var r2 := Pass(r1.tables, hash, r1.published, docs2, field, transform);
            && r2.oids == r1.oids && r2.changes == [] && r2.removed == {}
            && r2.published == r1.published && r2.tables == r1.tables
  {
    var r1 := Pass(t, hash, published, docs, field, transform);
    SecondPassSameIds(t, hash, published, docs, docs2, field, transform);
    PassStoresEachRow(t, hash, published, docs, field, transform);
    PassKeys(t, hash, published, docs, field, transform);
    AssignAllDistinct(t, hash, docs);
    QuietPass(r1.tables, hash, r1.published, r1.oids, docs2, field, transform);
  }

  /**
   * A pass whose rows all keep their ids, over a snapshot that holds exactly those ids with
   * the rows' truthy stored values, emits nothing, retracts nothing and changes nothing.
   */
  lemma QuietPass(t: IdTables, hash: Value -> Hash, published: map<Oid, Value>, oids: seq<Oid>, docs: seq<Doc>,
                  field: Option<string>, transform: Option<Doc -> Doc>)
    requires AssignAll(t, hash, docs) == (t, oids) && Distinct(oids)
    requires published.Keys == OidSet(oids)
    requires forall i :: 0 <= i < |docs| ==> oids[i] in published && published[oids[i]] == StoredValue(docs[i], field)
    requires forall i :: 0 <= i < |docs| ==> Truthy(StoredValue(docs[i], field))
    ensures var r := Pass(t, hash, published, docs, field, transform);
            r.oids == oids && r.changes == [] && r.removed == {} && r.published == published && r.tables == t
  {
    QuietAddPhase(published, oids, docs, field, transform);
    assert Stale(published, oids) == {};
    assert published - {} == published;
    assert ReleaseAll(t, {}).hashToOid == t.hashToOid;
    assert t.oidToHash - {} == t.oidToHash;
  }

  /**
   * A snapshot that already holds exactly the rows' ids, each with its row's truthy stored
   * value, is a fixed point of the loop, which emits nothing.
   */
  lemma QuietAddPhase(published: map<Oid, Value>, oids: seq<Oid>, docs: seq<Doc>, field: Option<string>,
                      transform: Option<Doc -> Doc>)
    requires |oids| == |docs| && Distinct(oids)
    requires published.Keys == OidSet(oids)
    requires forall i :: 0 <= i < |docs| ==> oids[i] in published && published[oids[i]] == StoredValue(docs[i], field)
    requires forall i :: 0 <= i < |docs| ==> Truthy(StoredValue(docs[i], field))
    ensures AddPhase(published, oids, docs, field, transform) == (published, [])
  {
    AddPhaseIsRowwise(published, oids, docs, field, transform);
    RowwiseQuiet(published, oids, docs, field, transform);
    AddPhaseKeys(published, oids, docs, field, transform);
    var (p2, events) := AddPhase(published, oids, docs, field, transform);
    assert p2.Keys == published.Keys;
    forall o | o in p2
      ensures p2[o] == published[o]
    {
      assert o in OidSet(oids);
      var i :| 0 <= i < |oids| && oids[i] == o;
      AddPhaseStores(published, oids, docs, field, transform, i);
    }
    assert p2 == published;
  }

  /** A second pass over rows with the same keys finds every row's id where the first pass left it. */
  lemma SecondPassSameIds(t: IdTables, hash: Value -> Hash, published: map<Oid, Value>, docs: seq<Doc>,
                          docs2: seq<Doc>, field: Option<string>, transform: Option<Doc -> Doc>)
    requires Consistent(t)
    requires |docs2| == |docs|
    requires forall i :: 0 <= i < |docs| ==> KeyOf(hash, docs2[i]) == KeyOf(hash, docs[i])
    ensures var r1 := Pass(t, hash, published, docs, field, transform);
            AssignAll(r1.tables, hash, docs2) == (r1.tables, r1.oids)
  {
    var r1 := Pass(t, hash, published, docs, field, transform);
    PassLeavesRowIds(t, hash, published, docs, field, transform);
    AssignAllSameKeys(r1.tables, hash, docs, docs2);
  }

  /** After a pass, the tables map every row's key to the id the pass gave that row. */
  lemma PassLeavesRowIds(t: IdTables, hash: Value -> Hash, published: map<Oid, Value>, docs: seq<Doc>,
                         field: Option<string>, transform: Option<Doc -> Doc>)
    requires Consistent(t)
    ensures var r1 := Pass(t, hash, published, docs, field, transform);
            AssignAll(r1.tables, hash, docs) == (r1.tables, r1.oids)
  {
    var (t1, oids) := AssignAll(t, hash, docs);
    AssignAllMaps(t, hash, docs);
    var p1 := AddPhase(published, oids, docs, field, transform).0;
    var stale := Stale(p1, oids);
    ReleaseAllKeeps(t1, stale);
    var t2 := ReleaseAll(t1, stale);
    assert t2 == Pass(t, hash, published, docs, field, transform).tables;
    forall i | 0 <= i < |docs|
      ensures KeyOf(hash, docs[i]) in t2.hashToOid && t2.hashToOid[KeyOf(hash, docs[i])] == oids[i]
    {
      assert oids[i] !in stale;
    }
    AssignAllKnown(t2, hash, docs);
    assert AssignAll(t2, hash, docs).1 == oids;
  }

  /** The ids depend on the rows only through their keys. */
  lemma {:induction false} AssignAllSameKeys(t: IdTables, hash: Value -> Hash, docs: seq<Doc>, docs2: seq<Doc>)
    requires |docs2| == |docs|
    requires forall i :: 0 <= i < |docs| ==> KeyOf(hash, docs2[i]) == KeyOf(hash, docs[i])
    ensures AssignAll(t, hash, docs2) == AssignAll(t, hash, docs)
    decreases |docs|
  {
    if docs != [] {
      var n := |docs| - 1;
      AssignAllSameKeys(t, hash, docs[..n], docs2[..n]);
      assert KeyOf(hash, docs2[n]) == KeyOf(hash, docs[n]);
    }
  }

  /**
   * `Date` identity: a row whose single-value field holds a new `Date` of the instant already
   * stored (a `$max` or `$min` of dates recomputed by the database) fails `!==` and is sent
   * as changed, though its time is the same.
   */
  lemma NewDateIsChanged(published: map<Oid, Value>, oid: Oid, doc: Doc, field: Option<string>,
                         transform: Option<Doc -> Doc>)
    requires IsSet(field) && oid in published && published[oid].Date?
    requires Get(doc, field.value).Date? && Get(doc, field.value).ref != published[oid].ref
    requires TimeOf(Get(doc, field.value)) == TimeOf(published[oid])
    ensures Step(published, oid, doc, field, transform) ==
            (published[oid := Get(doc, field.value)], [Changed(oid, Shown(doc, transform))])
  {
  }

  /** With distinct keys, after a pass each row's id holds that row's stored value. */
  lemma PassStoresEachRow(t: IdTables, hash: Value -> Hash, published: map<Oid, Value>, docs: seq<Doc>,
                          field: Option<string>, transform: Option<Doc -> Doc>)
    requires Consistent(t)
    requires forall i, j :: 0 <= i < j < |docs| ==> KeyOf(hash, docs[i]) != KeyOf(hash, docs[j])
    ensures var r := Pass(t, hash, published, docs, field, transform);
            forall i :: 0 <= i < |docs| ==> r.oids[i] in r.published && r.published[r.oids[i]] == StoredValue(docs[i], field)
  {
    var (t1, oids) := AssignAll(t, hash, docs);
    AssignAllDistinct(t, hash, docs);
    var p1 := AddPhase(published, oids, docs, field, transform).0;
    var stale := Stale(p1, oids);
    assert Pass(t, hash, published, docs, field, transform).published == p1 - stale;
    forall i | 0 <= i < |docs|
      ensures oids[i] in p1 - stale && (p1 - stale)[oids[i]] == StoredValue(docs[i], field)
    {
      AddPhaseStores(published, oids, docs, field, transform, i);
    }
  }

  /** When every row's stored value is already there and truthy, the reference events are empty. */
  lemma {:induction false} RowwiseQuiet(published: map<Oid, Value>, oids: seq<Oid>, docs: seq<Doc>,
                                        field: Option<string>, transform: Option<Doc -> Doc>)
    requires |oids| == |docs|
    requires forall i :: 0 <= i < |docs| ==>
               oids[i] in published && published[oids[i]] == StoredValue(docs[i], field) && Truthy(published[oids[i]])
    ensures Rowwise(published, oids, docs, field, transform) == []
    decreases |docs|
  {
    if docs != [] {
      var n := |docs| - 1;
      RowwiseQuiet(published, oids[..n], docs[..n], field, transform);
    }
  }

  /**
   * The truthiness quirk: with a single-value field, an entry that holds a falsy value (say
   * the count 0) counts as unpublished, so the row is added again, not compared.
   */
  lemma FalsyValueIsAddedAgain(t: IdTables, hash: Value -> Hash, published: map<Oid, Value>, docs: seq<Doc>,
                               field: Option<string>, transform: Option<Doc -> Doc>, i: nat)
    requires Consistent(t)
    requires forall i, j :: 0 <= i < j < |docs| ==> KeyOf(hash, docs[i]) != KeyOf(hash, docs[j])
    requires i < |docs|
    requires var o := Pass(t, hash, published, docs, field, transform).oids[i];
             o in published && !Truthy(published[o])
    ensures var r := Pass(t, hash, published, docs, field, transform);
            Added(r.oids[i], Shown(docs[i], transform)) in r.changes
  {
    var oids := AssignAll(t, hash, docs).1;
    AssignAllDistinct(t, hash, docs);
    AddPhaseIsRowwise(published, oids, docs, field, transform);
    RowwiseHas(published, oids, docs, field, transform, i);
  }

  /** Each row's reference events are among all the reference events. */
  lemma {:induction false} RowwiseHas(published: map<Oid, Value>, oids: seq<Oid>, docs: seq<Doc>,
                                      field: Option<string>, transform: Option<Doc -> Doc>, i: nat)
    requires |oids| == |docs| && i < |docs|
    ensures forall e :: e in RowEvents(published, oids[i], docs[i], field, transform) ==>
              e in Rowwise(published, oids, docs, field, transform)
    decreases |docs|
  {
    var n := |docs| - 1;
    if i < n {
      RowwiseHas(published, oids[..n], docs[..n], field, transform, i);
    }
  }

  /**
   * A pass against an empty snapshot (the first pass after a rebuild) only adds: one `added`
   * per row, in row order, when the rows' keys are distinct, and nothing is retracted.
   */
  lemma FreshPassOnlyAdds(t: IdTables, hash: Value -> Hash, docs: seq<Doc>,
                          field: Option<string>, transform: Option<Doc -> Doc>)
    requires Consistent(t)
    requires forall i, j :: 0 <= i < j < |docs| ==> KeyOf(hash, docs[i]) != KeyOf(hash, docs[j])
    ensures var r := Pass(t, hash, map[], docs, field, transform);
            && r.removed == {}
            && |r.changes| == |docs|
            && forall i :: 0 <= i < |docs| ==> r.changes[i] == Added(r.oids[i], Shown(docs[i], transform))
  {
    var oids := AssignAll(t, hash, docs).1;
    AssignAllDistinct(t, hash, docs);
    AddPhaseIsRowwise(map[], oids, docs, field, transform);
    RowwiseOnEmpty(oids, docs, field, transform);
    PassKeys(t, hash, map[], docs, field, transform);
  }

  /** A pass against an empty snapshot (the first after a rebuild) retracts nothing. */
  lemma FreshPassRetractsNothing(t: IdTables, hash: Value -> Hash, docs: seq<Doc>, field: Option<string>,
                                 transform: Option<Doc -> Doc>)
    requires Consistent(t)
    ensures Pass(t, hash, map[], docs, field, transform).removed == {}
  {
    PassKeys(t, hash, map[], docs, field, transform);
  }

  /** A pass's events followed by the removals of no id are just the pass's events. */
  lemma NoRemovalsAfter(changes: seq<Event>, events: seq<Event>)
    requires |changes| <= |events| && events[..|changes|] == changes
    requires EnumeratesRemovals(events[|changes|..], {})
    ensures events == changes
  {
    RemovalsFit(events[|changes|..], {});
    assert events == events[..|changes|] + events[|changes|..];
  }

  lemma {:induction false} RowwiseOnEmpty(oids: seq<Oid>, docs: seq<Doc>, field: Option<string>,
                                          transform: Option<Doc -> Doc>)
    requires |oids| == |docs|
    ensures |Rowwise(map[], oids, docs, field, transform)| == |docs|
    ensures forall i :: 0 <= i < |docs| ==>
              Rowwise(map[], oids, docs, field, transform)[i] == Added(oids[i], Shown(docs[i], transform))
    decreases |docs|
  {
    if docs != [] {
      var n := |docs| - 1;
      RowwiseOnEmpty(oids[..n], docs[..n], field, transform);
    }
  }

  /** Without a single-value field a pass never emits `changed`, and every entry it keeps is `true`. */
  lemma NoChangedWithoutField(t: IdTables, hash: Value -> Hash, published: map<Oid, Value>, docs: seq<Doc>,
                              field: Option<string>, transform: Option<Doc -> Doc>)
    requires !IsSet(field)
    ensures var r := Pass(t, hash, published, docs, field, transform);
            (forall e :: e in r.changes ==> e.Added?) &&
            (forall i :: 0 <= i < |docs| ==> r.oids[i] in r.published ==> r.published[r.oids[i]] == Bool(true))
  {
    var oids := AssignAll(t, hash, docs).1;
    AddPhaseEventKinds(published, oids, docs, field, transform);
    forall i | 0 <= i < |docs|
      ensures var p := AddPhase(published, oids, docs, field, transform).0; oids[i] in p && p[oids[i]] == Bool(true)
    {
      var k := LastIndexOf(oids, i);
      AddPhaseStores(published, oids, docs, field, transform, k);
    }
  }

  /** The last position that holds the same id as position `i`. */
  function LastIndexOf(oids: seq<Oid>, i: nat): (k: nat)
    requires i < |oids|
    ensures i <= k < |oids| && oids[k] == oids[i]
    ensures forall j :: k < j < |oids| ==> oids[j] != oids[k]
    decreases |oids| - i
  {
    if exists j :: i < j < |oids| && oids[j] == oids[i] then
      var j :| i < j < |oids| && oids[j] == oids[i];
      LastIndexOf(oids, j)
    else i
  }
}
