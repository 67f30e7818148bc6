/** The in-memory indexes over memory records (core/memory/indexes.py): one primary map and three
    inverted ones, by namespace, by owner and by tag. */
module MemoryIndex {

  datatype Record = Record(
    id: string,
    owner: string,
    namespace: string,
    title: string,
    content: string,
    metadata: map<string, string>,
    tags: seq<string>,
    importance: int,
    updatedAt: int,
    lastAccessed: int,
    accessCount: nat)

  type Buckets = map<string, set<string>>

  /** The value of the four dictionaries. */
  datatype Index = Index(byId: map<string, Record>, byNamespace: Buckets, byOwner: Buckets, byTags: Buckets)

  const EMPTY := Index(map[], map[], map[], map[])

  /** What a record is found under. */
  datatype Field = ByNamespace | ByOwner | ByTag

  predicate Carries(f: Field, r: Record, key: string) {
    match f
    case ByNamespace => r.namespace == key
    case ByOwner => r.owner == key
    case ByTag => key in r.tags
  }

  function BucketsOf(ix: Index, f: Field): Buckets {
    match f
    case ByNamespace => ix.byNamespace
    case ByOwner => ix.byOwner
    case ByTag => ix.byTags
  }

  function Bucket(b: Buckets, key: string): set<string> {
    if key in b then b[key] else {}
  }

  // ----- what the dictionary operations do to a value

  function Insert(b: Buckets, key: string, id: string): Buckets {
    b[key := Bucket(b, key) + {id}]
  }

  function InsertAll(b: Buckets, keys: seq<string>, id: string): Buckets {
    if keys == [] then b
    else Insert(InsertAll(b, keys[..|keys| - 1], id), keys[|keys| - 1], id)
  }

  /** Discard the id from the bucket and drop the bucket if that leaves it empty. */
  function Erase(b: Buckets, key: string, id: string): Buckets {
    if Bucket(b, key) - {id} == {} then b - {key} else b[key := Bucket(b, key) - {id}]
  }

  function EraseAll(b: Buckets, keys: seq<string>, id: string): Buckets {
    if keys == [] then b
    else Erase(EraseAll(b, keys[..|keys| - 1], id), keys[|keys| - 1], id)
  }

  function Added(ix: Index, r: Record): Index {
    Index(ix.byId[r.id := r],
          Insert(ix.byNamespace, r.namespace, r.id),
          Insert(ix.byOwner, r.owner, r.id),
          InsertAll(ix.byTags, r.tags, r.id))
  }

  function Removed(ix: Index, id: string): Index {
    if id !in ix.byId then ix
    else
      var r := ix.byId[id];
      Index(ix.byId - {id},
            Erase(ix.byNamespace, r.namespace, id),
            Erase(ix.byOwner, r.owner, id),
            EraseAll(ix.byTags, r.tags, id))
  }

  // ----- exactness

  /** The buckets are exactly the inverse image of the records, with no empty bucket. */
  ghost predicate Inverse(f: Field, b: Buckets, byId: map<string, Record>) {
    && (forall key :: key in b ==> b[key] != {})
    && (forall key, id :: id in Bucket(b, key) <==> id in byId && Carries(f, byId[id], key))
  }

  /** Every record is filed under its own id. */
  ghost predicate Keyed(byId: map<string, Record>) {
    forall id :: id in byId ==> byId[id].id == id
  }

  ghost predicate Exact(ix: Index) {
    && Keyed(ix.byId)
    && (forall f :: Inverse(f, BucketsOf(ix, f), ix.byId))
  }

  lemma {:induction false} InsertAllBucket(b: Buckets, keys: seq<string>, id: string)
    ensures forall key :: Bucket(InsertAll(b, keys, id), key)
                       == if key in keys then Bucket(b, key) + {id} else Bucket(b, key)
    ensures (forall key :: key in b ==> b[key] != {}) ==>
              forall key :: key in InsertAll(b, keys, id) ==> InsertAll(b, keys, id)[key] != {}
  {
    if keys != [] {
      var n := |keys| - 1;
      InsertAllBucket(b, keys[..n], id);
      assert keys == keys[..n] + [keys[n]];
    }
  }

  lemma {:induction false} EraseAllBucket(b: Buckets, keys: seq<string>, id: string)
    ensures forall key :: Bucket(EraseAll(b, keys, id), key)
                       == if key in keys then Bucket(b, key) - {id} else Bucket(b, key)
    ensures (forall key :: key in b ==> b[key] != {}) ==>
              forall key :: key in EraseAll(b, keys, id) ==> EraseAll(b, keys, id)[key] != {}
  {
    if keys != [] {
      var n := |keys| - 1;
      EraseAllBucket(b, keys[..n], id);
      assert keys == keys[..n] + [keys[n]];
    }
  }

  function KeysOf(f: Field, r: Record): seq<string> {
    match f
    case ByNamespace => [r.namespace]
    case ByOwner => [r.owner]
    case ByTag => r.tags
  }

  lemma AddedBuckets(ix: Index, r: Record, f: Field)
    ensures BucketsOf(Added(ix, r), f) == InsertAll(BucketsOf(ix, f), KeysOf(f, r), r.id)
    ensures forall key :: key in KeysOf(f, r) <==> Carries(f, r, key)
  {
    if !f.ByTag? {
      assert KeysOf(f, r)[..0] == [];
    }
  }

  lemma RemovedBuckets(ix: Index, id: string, f: Field)
    requires id in ix.byId
    ensures BucketsOf(Removed(ix, id), f) == EraseAll(BucketsOf(ix, f), KeysOf(f, ix.byId[id]), id)
    ensures forall key :: key in KeysOf(f, ix.byId[id]) <==> Carries(f, ix.byId[id], key)
  {
    if !f.ByTag? {
      assert KeysOf(f, ix.byId[id])[..0] == [];
    }
  }

  /** Adding a record over a live one leaves nothing stale behind exactly when the new record is
      found under everything the old one was found under. */
  ghost predicate Harmless(ix: Index, r: Record) {
    r.id in ix.byId ==>
      var o := ix.byId[r.id];
      o.namespace == r.namespace && o.owner == r.owner && forall tag :: tag in o.tags ==> tag in r.tags
  }

  lemma AddInverse(ix: Index, r: Record, f: Field)
    requires Exact(ix)
    requires r.id in ix.byId ==> forall key :: Carries(f, ix.byId[r.id], key) ==> Carries(f, r, key)
    ensures Inverse(f, BucketsOf(Added(ix, r), f), Added(ix, r).byId)
  {
    var b, b' := BucketsOf(ix, f), BucketsOf(Added(ix, r), f);
    assert Inverse(f, b, ix.byId);
    AddedBuckets(ix, r, f);
    InsertAllBucket(b, KeysOf(f, r), r.id);
    forall key, id
      ensures id in Bucket(b', key) <==> id in Added(ix, r).byId && Carries(f, Added(ix, r).byId[id], key)
    {
      assert id in Bucket(b, key) <==> id in ix.byId && Carries(f, ix.byId[id], key);
    }
  }

  /** `add` keeps the indexes exact if and only if it overwrites no record that is found under
      something the new one is not found under. */
  lemma AddExact(ix: Index, r: Record)
    requires Exact(ix)
    ensures Exact(Added(ix, r)) <==> Harmless(ix, r)
  {
    if Harmless(ix, r) {
      forall f
        ensures Inverse(f, BucketsOf(Added(ix, r), f), Added(ix, r).byId)
      {
        AddInverse(ix, r, f);
      }
    } else {
      var o := ix.byId[r.id];
      if o.namespace != r.namespace {
        AddLeavesStale(ix, r, ByNamespace, o.namespace);
      } else if o.owner != r.owner {
        AddLeavesStale(ix, r, ByOwner, o.owner);
      } else {
        var tag :| tag in o.tags && tag !in r.tags;
        AddLeavesStale(ix, r, ByTag, tag);
      }
    }
  }

  lemma AddLeavesStale(ix: Index, r: Record, f: Field, key: string)
    requires Exact(ix) && r.id in ix.byId
    requires Carries(f, ix.byId[r.id], key) && !Carries(f, r, key)
    ensures !Exact(Added(ix, r))
  {
    var b, b' := BucketsOf(ix, f), BucketsOf(Added(ix, r), f);
    assert Inverse(f, b, ix.byId);
    AddedBuckets(ix, r, f);
    InsertAllBucket(b, KeysOf(f, r), r.id);
    assert r.id in Bucket(b, key);
    assert r.id in Bucket(b', key) && Added(ix, r).byId[r.id] == r;
    assert Inverse(f, b', Added(ix, r).byId) ==> Carries(f, r, key);
  }

  /** `remove` always keeps the indexes exact. */
  lemma RemoveExact(ix: Index, id: string)
    requires Exact(ix)
    ensures Exact(Removed(ix, id)) && Removed(ix, id).byId == ix.byId - {id}
  {
    if id in ix.byId {
      forall f
        ensures Inverse(f, BucketsOf(Removed(ix, id), f), Removed(ix, id).byId)
      {
        RemoveInverse(ix, id, f);
      }
    } else {
      assert ix.byId == ix.byId - {id};
    }
  }

  lemma RemoveInverse(ix: Index, id: string, f: Field)
    requires Exact(ix) && id in ix.byId
    ensures Inverse(f, BucketsOf(Removed(ix, id), f), Removed(ix, id).byId)
  {
    var b, b' := BucketsOf(ix, f), BucketsOf(Removed(ix, id), f);
    assert Inverse(f, b, ix.byId);
    RemovedBuckets(ix, id, f);
    EraseAllBucket(b, KeysOf(f, ix.byId[id]), id);
    forall key, x
      ensures x in Bucket(b', key) <==> x in Removed(ix, id).byId && Carries(f, Removed(ix, id).byId[x], key)
    {
      assert x in Bucket(b, key) <==> x in ix.byId && Carries(f, ix.byId[x], key);
    }
  }

  // ----- removing everything

  /** The records among `ids` that are found under the key. */
  function Carriers(f: Field, byId: map<string, Record>, ids: set<string>, key: string): set<string> {
    set id | id in ids && id in byId && Carries(f, byId[id], key)
  }

  /** What removing the records of `ids` leaves: a bucket that no removed record is found under stays as
      it is, any other loses those records, and goes if nothing is left. */
  function Purged(f: Field, b: Buckets, byId: map<string, Record>, ids: set<string>): Buckets {
    map key | key in b && !(Carriers(f, byId, ids, key) != {} && b[key] - Carriers(f, byId, ids, key) == {}) ::
      b[key] - Carriers(f, byId, ids, key)
  }

  function PurgedIndex(ix: Index, ids: set<string>): Index {
    Index(ix.byId - ids,
          Purged(ByNamespace, ix.byNamespace, ix.byId, ids),
          Purged(ByOwner, ix.byOwner, ix.byId, ids),
          Purged(ByTag, ix.byTags, ix.byId, ids))
  }

  function Cleared(ix: Index): Index {
    PurgedIndex(ix, ix.byId.Keys)
  }

  lemma {:induction false} EraseAllAt(b: Buckets, keys: seq<string>, id: string, key: string)
    ensures var e := EraseAll(b, keys, id);
            && (key in e <==> key in b && !(key in keys && b[key] - {id} == {}))
            && (key in e ==> e[key] == if key in keys then b[key] - {id} else b[key])
  {
    if keys != [] {
      var n := |keys| - 1;
      EraseAllAt(b, keys[..n], id, key);
      assert keys == keys[..n] + [keys[n]];
      if key in b {
        assert b[key] - {id} - {id} == b[key] - {id};
      }
    }
  }

  lemma CarriersGrow(f: Field, byId: map<string, Record>, ids: set<string>, id: string, key: string)
    requires id in byId
    ensures Carriers(f, byId, ids + {id}, key)
         == Carriers(f, byId, ids, key) + if Carries(f, byId[id], key) then {id} else {}
  {
  }

  lemma PurgeOneMore(f: Field, b: Buckets, byId: map<string, Record>, ids: set<string>, id: string, keys: seq<string>)
    requires id in byId && forall key :: key in keys <==> Carries(f, byId[id], key)
    ensures EraseAll(Purged(f, b, byId, ids), keys, id) == Purged(f, b, byId, ids + {id})
  {
    var erased, after := EraseAll(Purged(f, b, byId, ids), keys, id), Purged(f, b, byId, ids + {id});
    forall key
      ensures key in erased <==> key in after
      ensures key in after ==> erased[key] == after[key]
    {
      PurgeOneKey(f, b, byId, ids, id, keys, key);
    }
    assert erased == after;
  }

  lemma PurgeOneKey(f: Field, b: Buckets, byId: map<string, Record>, ids: set<string>, id: string, keys: seq<string>,
                    key: string)
    requires id in byId && forall k :: k in keys <==> Carries(f, byId[id], k)
    ensures var erased, after := EraseAll(Purged(f, b, byId, ids), keys, id), Purged(f, b, byId, ids + {id});
            && (key in erased <==> key in after)
            && (key in after ==> erased[key] == after[key])
  {
    EraseAllAt(Purged(f, b, byId, ids), keys, id, key);
    CarriersGrow(f, byId, ids, id, key);
    if key in b {
      var c := Carriers(f, byId, ids, key);
      assert b[key] - c - {id} == b[key] - (c + {id});
      assert c + {} == c;
    }
  }

  /** Removing one record more. */
  lemma PurgeStep(ix: Index, ids: set<string>, id: string)
    requires id in ix.byId && id !in ids
    ensures Removed(PurgedIndex(ix, ids), id) == PurgedIndex(ix, ids + {id})
  {
    var part := PurgedIndex(ix, ids);
    var r := ix.byId[id];
    assert part.byId[id] == r;
    assert part.byId - {id} == ix.byId - (ids + {id});
    RemovedBuckets(part, id, ByNamespace);
    RemovedBuckets(part, id, ByOwner);
    PurgeOneMore(ByNamespace, ix.byNamespace, ix.byId, ids, id, KeysOf(ByNamespace, r));
    PurgeOneMore(ByOwner, ix.byOwner, ix.byId, ids, id, KeysOf(ByOwner, r));
    PurgeOneMore(ByTag, ix.byTags, ix.byId, ids, id, r.tags);
  }

  lemma PurgeNothing(ix: Index)
    ensures PurgedIndex(ix, {}) == ix
  {
    assert ix.byId - {} == ix.byId;
    PurgeNothingFrom(ByNamespace, ix.byNamespace, ix.byId);
    PurgeNothingFrom(ByOwner, ix.byOwner, ix.byId);
    PurgeNothingFrom(ByTag, ix.byTags, ix.byId);
  }

  lemma PurgeNothingFrom(f: Field, b: Buckets, byId: map<string, Record>)
    ensures Purged(f, b, byId, {}) == b
  {
    forall key | key in b
      ensures Carriers(f, byId, {}, key) == {} && b[key] - Carriers(f, byId, {}, key) == b[key]
    {
    }
  }

  /** Every bucket is one that a live record is found under, and holds only such records. */
  ghost predicate NothingStale(ix: Index) {
    forall f, key :: key in BucketsOf(ix, f) ==>
      Carriers(f, ix.byId, ix.byId.Keys, key) != {}
      && BucketsOf(ix, f)[key] <= Carriers(f, ix.byId, ix.byId.Keys, key)
  }

  lemma PurgedBuckets(ix: Index, f: Field)
    ensures BucketsOf(Cleared(ix), f) == Purged(f, BucketsOf(ix, f), ix.byId, ix.byId.Keys)
  {
  }

  /** Removing record by record empties all four dictionaries if and only if nothing in the buckets is
      stale. */
  lemma ClearedExactly(ix: Index)
    ensures Cleared(ix).byId == map[]
    ensures Cleared(ix) == EMPTY <==> NothingStale(ix)
  {
    assert ix.byId - ix.byId.Keys == map[];
    forall f, key | key in BucketsOf(ix, f)
      ensures key in BucketsOf(Cleared(ix), f) <==>
                !(Carriers(f, ix.byId, ix.byId.Keys, key) != {}
                  && BucketsOf(ix, f)[key] <= Carriers(f, ix.byId, ix.byId.Keys, key))
    {
      var c := Carriers(f, ix.byId, ix.byId.Keys, key);
      NothingOutside(BucketsOf(ix, f)[key], c);
      PurgedBuckets(ix, f);
    }
    if Cleared(ix) == EMPTY {
      forall f, key | key in BucketsOf(ix, f)
        ensures key !in BucketsOf(Cleared(ix), f)
      {
      }
    }
    if NothingStale(ix) {
      forall f, key
        ensures key !in BucketsOf(Cleared(ix), f)
      {
        PurgedBuckets(ix, f);
      }
      assert BucketsOf(Cleared(ix), ByNamespace) == map[];
      assert BucketsOf(Cleared(ix), ByOwner) == map[];
      assert BucketsOf(Cleared(ix), ByTag) == map[];
    }
  }

  lemma NothingOutside(a: set<string>, b: set<string>)
    ensures a - b == {} <==> a <= b
  {
    if a - b == {} {
      forall x | x in a
        ensures x in b
      {
        assert x !in a - b;
      }
    }
  }

  lemma ExactIsNotStale(ix: Index)
    requires Exact(ix)
    ensures NothingStale(ix)
  {
    forall f, key | key in BucketsOf(ix, f)
      ensures Carriers(f, ix.byId, ix.byId.Keys, key) != {}
      ensures BucketsOf(ix, f)[key] <= Carriers(f, ix.byId, ix.byId.Keys, key)
    {
      var b := BucketsOf(ix, f);
      assert Inverse(f, b, ix.byId);
      forall id | id in b[key]
        ensures id in Carriers(f, ix.byId, ix.byId.Keys, key)
      {
        assert id in Bucket(b, key);
      }
      var id :| id in b[key];
      assert id in Carriers(f, ix.byId, ix.byId.Keys, key);
    }
  }

  // ----- the index object

  class MemoryIndex {
    var byId: map<string, Record>
    var byNamespace: Buckets
    var byTags: Buckets
    var byOwner: Buckets

    constructor ()
      ensures Value() == EMPTY
    {
      byId, byNamespace, byTags, byOwner := map[], map[], map[], map[];
    }

    ghost function Value(): Index
      reads this
    {
      Index(byId, byNamespace, byOwner, byTags)
    }

    method Add(record: Record)
      modifies this
      ensures Value() == Added(old(Value()), record)
    {
      byId := byId[record.id := record];
      byNamespace := byNamespace[record.namespace := Bucket(byNamespace, record.namespace) + {record.id}];
      byOwner := byOwner[record.owner := Bucket(byOwner, record.owner) + {record.id}];
      for k := 0 to |record.tags|
        invariant byId == old(byId)[record.id := record]
        invariant byNamespace == Insert(old(byNamespace), record.namespace, record.id)
        invariant byOwner == Insert(old(byOwner), record.owner, record.id)
        invariant byTags == InsertAll(old(byTags), record.tags[..k], record.id)
      {
        assert record.tags[..k + 1][..k] == record.tags[..k];
        byTags := byTags[record.tags[k] := Bucket(byTags, record.tags[k]) + {record.id}];
      }
      assert record.tags[..|record.tags|] == record.tags;
    }

    /** Looking a missing key up in a `defaultdict` makes an empty bucket, which the test after
        it drops again. */
    method Remove(recordId: string)
      modifies this
      ensures Value() == Removed(old(Value()), recordId)
    {
      if recordId !in byId {
        return;
      }
      var record := byId[recordId];
      byId := byId - {recordId};
      byNamespace := byNamespace[record.namespace := Bucket(byNamespace, record.namespace) - {recordId}];
      if byNamespace[record.namespace] == {} {
        byNamespace := byNamespace - {record.namespace};
      }
      assert byNamespace == Erase(old(byNamespace), record.namespace, recordId);
      byOwner := byOwner[record.owner := Bucket(byOwner, record.owner) - {recordId}];
      if byOwner[record.owner] == {} {
        byOwner := byOwner - {record.owner};
      }
      assert byOwner == Erase(old(byOwner), record.owner, recordId);
      RemoveTags(record.tags, recordId);
    }

    method RemoveTags(tags: seq<string>, recordId: string)
      modifies this`byTags
      ensures byTags == EraseAll(old(byTags), tags, recordId)
    {
      for k := 0 to |tags|
        invariant byTags == EraseAll(old(byTags), tags[..k], recordId)
      {
        ghost var before := byTags;
        var tag := tags[k];
        assert tags[..k + 1][..k] == tags[..k];
        byTags := byTags[tag := Bucket(byTags, tag) - {recordId}];
        if byTags[tag] == {} {
          byTags := byTags - {tag};
        }
        assert byTags == Erase(before, tag, recordId);
      }
      assert tags[..|tags|] == tags;
    }

    method Update(oldRecord: Record, newRecord: Record)
      modifies this
      ensures Value() == Added(Removed(old(Value()), oldRecord.id), newRecord)
    {
      Remove(oldRecord.id);
      Add(newRecord);
    }
  }
}
