/**
 * The publication id manager: it hands out a stable public id per grouping key (the hash of
 * a result row's `_id`) and can release ids one at a time or all at once.
 *
 * The state is given twice: as the value `IdTables`, on which the operations are functions
 * and the properties are lemmas, and as the class `PublicationIdManager`, whose methods
 * update its fields in place and are specified by those functions.
 */
module PublicationIds {
  import opened Values

  /** The digest `hash-sum` computes of an `_id`. */
  type Hash = string

  /**
   * A public id. `new Mongo.ObjectID()` is modelled by a counter: the n-th id ever minted
   * by a manager is n, so two mints never yield the same id.
   */
  type Oid = nat

  /** The manager's state: the forward map, the reverse map and the number of ids minted. */
  datatype IdTables = IdTables(hashToOid: map<Hash, Oid>, oidToHash: map<Oid, Hash>, minted: nat)

  /** The manager's invariant: the two maps are mutual inverses and every live id was minted. */
  predicate Consistent(t: IdTables) {
    && (forall h :: h in t.hashToOid ==> t.hashToOid[h] in t.oidToHash && t.oidToHash[t.hashToOid[h]] == h)
    && (forall o :: o in t.oidToHash ==> t.oidToHash[o] in t.hashToOid && t.hashToOid[t.oidToHash[o]] == o)
    && (forall o :: o in t.oidToHash ==> o < t.minted)
  }

  /**
   * `getOid` on the key `h`: the id already mapped to `h`, or a freshly minted one that is
   * recorded in both maps. (The source tests `!hashToOidMap[h]`; an id is a non-empty
   * string and so truthy, which makes the test the same as "h is absent".)
   */
  function Assign(t: IdTables, h: Hash): (r: (IdTables, Oid))
    ensures h in r.0.hashToOid && r.0.hashToOid[h] == r.1
    ensures h in t.hashToOid ==> r.0 == t
    ensures h !in t.hashToOid ==> r.1 == t.minted && r.0.minted == t.minted + 1
  {
    if h in t.hashToOid then (t, t.hashToOid[h])
    else (IdTables(t.hashToOid[h := t.minted], t.oidToHash[t.minted := h], t.minted + 1), t.minted)
  }

  /**
   * `removeOid(oid)`: both entries of `oid` go. For an unknown `oid` the source deletes the
   * property named "undefined" of the forward map, which no `hash-sum` digest (a string of
   * hexadecimal digits) can be, so only the reverse map is touched.
   */
  function Release(t: IdTables, oid: Oid): (r: IdTables)
    ensures r.oidToHash == t.oidToHash - {oid} && r.minted == t.minted
    ensures forall h :: h in r.hashToOid ==> h in t.hashToOid && r.hashToOid[h] == t.hashToOid[h]
  {
    if oid in t.oidToHash then IdTables(t.hashToOid - {t.oidToHash[oid]}, t.oidToHash - {oid}, t.minted)
    else IdTables(t.hashToOid, t.oidToHash - {oid}, t.minted)
  }

  /** `reset()`: both maps are emptied; the id source is not rewound. */
  function Cleared(t: IdTables): (r: IdTables)
    ensures Consistent(r) && r.minted == t.minted
    ensures forall h :: h !in r.hashToOid
  {
    IdTables(map[], map[], t.minted)
  }

  lemma AssignKeepsConsistent(t: IdTables, h: Hash)
    requires Consistent(t)
    ensures Consistent(Assign(t, h).0)
    ensures h in Assign(t, h).0.hashToOid && Assign(t, h).0.hashToOid[h] == Assign(t, h).1
    ensures Assign(t, h).0.oidToHash[Assign(t, h).1] == h
  {
  }

  /** Asking twice for the same key, with nothing in between, yields the same id and state. */
  lemma AssignIsStable(t: IdTables, h: Hash)
    ensures Assign(Assign(t, h).0, h) == Assign(t, h)
  {
  }

  /** A newly minted id is not among the ids currently in use. */
  lemma MintedIdIsFresh(t: IdTables, h: Hash)
    requires Consistent(t) && h !in t.hashToOid
    ensures Assign(t, h).1 !in t.oidToHash
    ensures Assign(t, h).1 == t.minted && Assign(t, h).0.minted == t.minted + 1
  {
  }

  lemma ReleaseKeepsConsistent(t: IdTables, oid: Oid)
    requires Consistent(t)
    ensures Consistent(Release(t, oid))
  {
  }

  /**
   * After `removeOid(oid)` neither map mentions `oid` or its key, and every other entry of
   * both maps is as it was.
   */
  lemma ReleaseForgetsOnlyOid(t: IdTables, oid: Oid)
    requires Consistent(t)
    ensures oid !in Release(t, oid).oidToHash
    ensures forall h :: h in Release(t, oid).hashToOid ==> Release(t, oid).hashToOid[h] != oid
    ensures oid in t.oidToHash ==> t.oidToHash[oid] !in Release(t, oid).hashToOid
    ensures forall o :: o in t.oidToHash && o != oid ==>
              o in Release(t, oid).oidToHash && Release(t, oid).oidToHash[o] == t.oidToHash[o]
    ensures forall h :: h in t.hashToOid && t.hashToOid[h] != oid ==>
              h in Release(t, oid).hashToOid && Release(t, oid).hashToOid[h] == t.hashToOid[h]
    ensures Release(t, oid).minted == t.minted
  {
  }

  /** Releasing the id of a key and asking for the key again yields a different id. */
  lemma ReleasedKeyGetsNewId(t: IdTables, h: Hash)
    requires Consistent(t)
    ensures Assign(Release(Assign(t, h).0, Assign(t, h).1), h).1 != Assign(t, h).1
  {
    AssignKeepsConsistent(t, h);
  }

  /** After `reset()` both maps are empty and a key seen before the reset gets a new id. */
  lemma ResetKeyGetsNewId(t: IdTables, h: Hash)
    requires Consistent(t)
    ensures Consistent(Cleared(t)) && Cleared(t).hashToOid == map[] && Cleared(t).oidToHash == map[]
    ensures Assign(Cleared(Assign(t, h).0), h).1 != Assign(t, h).1
  {
    AssignKeepsConsistent(t, h);
  }

  /** The grouping key of a result row, `sum(doc._id)`, for the digest function `hash`. */
  function KeyOf(hash: Value -> Hash, doc: Doc): Hash {
    hash(Get(doc, "_id"))
  }

  /** Rows with equal `_id` get the same id from the same state, whatever else they hold. */
  lemma OidDependsOnlyOnId(t: IdTables, hash: Value -> Hash, d1: Doc, d2: Doc)
    requires Get(d1, "_id") == Get(d2, "_id")
    ensures Assign(t, KeyOf(hash, d1)) == Assign(t, KeyOf(hash, d2))
  {
  }

  /** A call on the manager, for stating what holds across any sequence of calls. */
  datatype Call = GetOid(h: Hash) | RemoveOid(oid: Oid) | Reset

  function Apply(t: IdTables, c: Call): IdTables {
    match c
    case GetOid(h) => Assign(t, h).0
    case RemoveOid(oid) => Release(t, oid)
    case Reset => Cleared(t)
  }

  function Run(t: IdTables, calls: seq<Call>): IdTables
    decreases |calls|
  {
    if calls == [] then t else Run(Apply(t, calls[0]), calls[1..])
  }

  /** Every sequence of calls keeps the invariant and never rewinds the id source. */
  lemma {:induction false} RunKeepsConsistent(t: IdTables, calls: seq<Call>)
    requires Consistent(t)
    ensures Consistent(Run(t, calls))
    ensures Run(t, calls).minted >= t.minted
    decreases |calls|
  {
    if calls != [] {
      match calls[0] {
        case GetOid(h) => AssignKeepsConsistent(t, h);
        case RemoveOid(oid) => ReleaseKeepsConsistent(t, oid);
        case Reset =>
      }
      RunKeepsConsistent(Apply(t, calls[0]), calls[1..]);
    }
  }

  /**
   * An id handed out once is never minted again: whatever calls follow (releases and
   * resets included), a later `getOid` that mints returns a different id.
   */
  lemma NeverReissued(t: IdTables, h: Hash, calls: seq<Call>, h': Hash)
    requires Consistent(t)
    requires h' !in Run(Assign(t, h).0, calls).hashToOid
    ensures Assign(Run(Assign(t, h).0, calls), h').1 != Assign(t, h).1
  {
    AssignKeepsConsistent(t, h);
    RunKeepsConsistent(Assign(t, h).0, calls);
  }

  class PublicationIdManager {
    /** `hash-sum`, a pure function of an `_id` value. */
    const hash: Value -> Hash
    var hashToOidMap: map<Hash, Oid>
    var oidToHashMap: map<Oid, Hash>
    /** How many ids have been minted; stands for the `Mongo.ObjectID` generator. */
    var minted: nat

    function Tables(): IdTables
      reads this
    {
      IdTables(hashToOidMap, oidToHashMap, minted)
    }

    ghost predicate Valid()
      reads this
    {
      Consistent(Tables())
    }

    constructor (hash: Value -> Hash)
      ensures Valid() && this.hash == hash
      ensures hashToOidMap == map[] && oidToHashMap == map[]
    {
      this.hash := hash;
      hashToOidMap, oidToHashMap, minted := map[], map[], 0;
    }

    method GetOid(doc: Doc) returns (oid: Oid)
      requires Valid()
      modifies this
      ensures Valid()
      ensures (Tables(), oid) == Assign(old(Tables()), KeyOf(hash, doc))
      ensures KeyOf(hash, doc) in hashToOidMap && hashToOidMap[KeyOf(hash, doc)] == oid && oidToHashMap[oid] == KeyOf(hash, doc)
      ensures KeyOf(hash, doc) in old(hashToOidMap) ==> oid == old(hashToOidMap[KeyOf(hash, doc)]) && Tables() == old(Tables())
      ensures KeyOf(hash, doc) !in old(hashToOidMap) ==> oid !in old(oidToHashMap)
    {
      var oidKey := KeyOf(hash, doc);
      if oidKey !in hashToOidMap {
        hashToOidMap := hashToOidMap[oidKey := minted];
        oidToHashMap := oidToHashMap[minted := oidKey];
        minted := minted + 1;
      }
      oid := hashToOidMap[oidKey];
    }

    method RemoveOid(oid: Oid)
      requires Valid()
      modifies this
      ensures Valid()
      ensures Tables() == Release(old(Tables()), oid)
      ensures oid !in oidToHashMap && forall h :: h in hashToOidMap ==> hashToOidMap[h] != oid
    {
      ReleaseForgetsOnlyOid(Tables(), oid);
      if oid in oidToHashMap {
        var hash := oidToHashMap[oid];
        hashToOidMap := hashToOidMap - {hash};
      }
      oidToHashMap := oidToHashMap - {oid};
    }

    method Reset()
      requires Valid()
      modifies this
      ensures Valid()
      ensures Tables() == Cleared(old(Tables()))
      ensures hashToOidMap == map[] && oidToHashMap == map[]
    {
      oidToHashMap := map[];
      hashToOidMap := map[];
    }
  }
}
