/** The memory store over the indexes (core/memory/store.py): what every run of its operations
    keeps, and when a run can break it. */
module MemoryStore {
  import opened Wrappers
  import opened Sorting
  import opened MemoryIndex

  datatype StoreError = Duplicate | NotFound | Invalid

  /** What a record has to be to be constructed at all. */
  predicate ValidRecord(r: Record) {
    r.id != "" && r.owner != "" && r.namespace != ""
  }

  /** The keyword arguments of an update; a field that is not given stays. */
  datatype Changes = Changes(
    id: Option<string>, owner: Option<string>, namespace: Option<string>, title: Option<string>,
    content: Option<string>, metadata: Option<map<string, string>>, tags: Option<seq<string>>,
    importance: Option<int>, lastAccessed: Option<int>, accessCount: Option<nat>)

  function Or<T>(o: Option<T>, default: T): T {
    match o
    case Some(v) => v
    case None => default
  }

  /** `with_update` */
  function Updated(r: Record, c: Changes, now: int): Record {
    Record(Or(c.id, r.id), Or(c.owner, r.owner), Or(c.namespace, r.namespace), Or(c.title, r.title),
           Or(c.content, r.content), Or(c.metadata, r.metadata), Or(c.tags, r.tags),
           Or(c.importance, r.importance), now, Or(c.lastAccessed, r.lastAccessed), Or(c.accessCount, r.accessCount))
  }

  ghost predicate Takes<T>(given: Option<T>, before: T, after: T) {
    (given.Some? ==> after == given.value) && (given.None? ==> after == before)
  }

  /** Each field that is given is taken over, every other one stays, and the record is stamped. */
  ghost predicate ChangedBy(before: Record, c: Changes, now: int, after: Record) {
    && Takes(c.id, before.id, after.id) && Takes(c.owner, before.owner, after.owner)
    && Takes(c.namespace, before.namespace, after.namespace) && Takes(c.title, before.title, after.title)
    && Takes(c.content, before.content, after.content) && Takes(c.metadata, before.metadata, after.metadata)
    && Takes(c.tags, before.tags, after.tags) && Takes(c.importance, before.importance, after.importance)
    && Takes(c.lastAccessed, before.lastAccessed, after.lastAccessed)
    && Takes(c.accessCount, before.accessCount, after.accessCount) && after.updatedAt == now
  }

  // ----- runs of operations on the value of the index

  datatype Op = Add(record: Record) | Update(id: string, changes: Changes, now: int) | Replace(record: Record)
    | Delete(id: string) | Clear

  function Perform(ix: Index, op: Op): Result<Index, StoreError> {
    match op
    case Add(r) => if r.id in ix.byId then Failure(Duplicate) else Success(Added(ix, r))
    case Update(id, changes, now) =>
      if id !in ix.byId then Failure(NotFound)
      else if !ValidRecord(Updated(ix.byId[id], changes, now)) then Failure(Invalid)
      else Success(Added(Removed(ix, id), Updated(ix.byId[id], changes, now)))
    case Replace(r) => if r.id !in ix.byId then Failure(NotFound) else Success(Added(Removed(ix, r.id), r))
    case Delete(id) => if id !in ix.byId then Failure(NotFound) else Success(Removed(ix, id))
    case Clear => Success(Cleared(ix))
  }

  /** An operation that fails leaves the index alone. */
  function After(ix: Index, op: Op): Index {
    match Perform(ix, op)
    case Success(ix') => ix'
    case Failure(_) => ix
  }

  /** The update renames a record onto another live one that is found under something the renamed
      record is not found under. */
  ghost predicate Clobbers(ix: Index, op: Op) {
    && op.Update? && op.id in ix.byId
    && var r := Updated(ix.byId[op.id], op.changes, op.now);
       ValidRecord(r) && r.id != op.id && !Harmless(ix, r)
  }

  /** One operation keeps the indexes exact if and only if it is not an update that clobbers
      another record. */
  lemma OperationExact(ix: Index, op: Op)
    requires Exact(ix)
    ensures Exact(After(ix, op)) <==> !Clobbers(ix, op)
  {
    match op
    case Add(r) => AddExact(ix, r);
    case Update(id, changes, now) =>
      if id in ix.byId {
        RemoveExact(ix, id);
        AddExact(Removed(ix, id), Updated(ix.byId[id], changes, now));
      }
    case Replace(r) =>
      RemoveExact(ix, r.id);
      AddExact(Removed(ix, r.id), r);
    case Delete(id) => RemoveExact(ix, id);
    case Clear =>
      ExactIsNotStale(ix);
      ClearedExactly(ix);
      EmptyExact();
  }

  lemma EmptyExact()
    ensures Exact(EMPTY)
  {
  }

  function AfterAll(ops: seq<Op>): Index {
    if ops == [] then EMPTY else After(AfterAll(ops[..|ops| - 1]), ops[|ops| - 1])
  }

  /** After any sequence of operations, started from an empty store, in which no update clobbers
      another live record, all three inverted indexes are exact. */
  lemma {:induction false} RunExact(ops: seq<Op>)
    requires forall n :: 0 <= n < |ops| ==> !Clobbers(AfterAll(ops[..n]), ops[n])
    ensures Exact(AfterAll(ops))
  {
    if ops == [] {
      EmptyExact();
    } else {
      var last := |ops| - 1;
      forall n | 0 <= n < last
        ensures !Clobbers(AfterAll(ops[..last][..n]), ops[..last][n])
      {
        assert ops[..last][..n] == ops[..n];
      }
      RunExact(ops[..last]);
      OperationExact(AfterAll(ops[..last]), ops[last]);
    }
  }

  function Keeping(id: string): Changes {
    Changes(Some(id), None, None, None, None, None, None, None, None, None)
  }

  /** A run that clobbers: renaming "b" onto the live "a", which was tagged. */
  lemma ClobberingRun(a: Record, b: Record, now: int)
    requires ValidRecord(a) && ValidRecord(b) && a.id != b.id && a.tags != [] && b.tags == []
    ensures !Exact(AfterAll([Add(a), Add(b), Update(b.id, Keeping(a.id), now)]))
  {
    var ops := [Add(a), Add(b), Update(b.id, Keeping(a.id), now)];
    assert ops[..2] == [Add(a), Add(b)] && ops[..2][..1] == [Add(a)] && ops[..2][..1][..0] == [];
    var one := Added(EMPTY, a);
    var two := Added(one, b);
    assert AfterAll(ops[..2][..1]) == one;
    assert AfterAll(ops[..2]) == two;
    EmptyExact();
    AddExact(EMPTY, a);
    AddExact(one, b);
    assert a.tags[0] in a.tags;
    OperationExact(two, ops[2]);
  }

  /** Clearing the store after that run leaves the tag behind. */
  lemma ClobberedTagStays(a: Record, b: Record, now: int)
    requires ValidRecord(a) && ValidRecord(b) && a.id != b.id && a.tags != [] && b.tags == []
    ensures AfterAll([Add(a), Add(b), Update(b.id, Keeping(a.id), now)] + [Clear]) != EMPTY
  {
    var ops := [Add(a), Add(b), Update(b.id, Keeping(a.id), now)];
    var ix := AfterAll(ops);
    assert (ops + [Clear])[..3] == ops;
    ClobberedTag(a, b, now);
    ClearedExactly(ix);
    assert a.tags[0] in BucketsOf(ix, ByTag);
    assert Carriers(ByTag, ix.byId, ix.byId.Keys, a.tags[0]) == {};
  }

  lemma ClobberedTag(a: Record, b: Record, now: int)
    requires ValidRecord(a) && ValidRecord(b) && a.id != b.id && a.tags != [] && b.tags == []
    ensures var ix := AfterAll([Add(a), Add(b), Update(b.id, Keeping(a.id), now)]);
            && a.tags[0] in ix.byTags
            && forall id :: id in ix.byId ==> ix.byId[id].tags == []
  {
    var ops := [Add(a), Add(b), Update(b.id, Keeping(a.id), now)];
    assert ops[..2] == [Add(a), Add(b)] && ops[..2][..1] == [Add(a)] && ops[..2][..1][..0] == [];
    var one := Added(EMPTY, a);
    var two := Added(one, b);
    assert AfterAll(ops[..2][..1]) == one;
    assert AfterAll(ops[..2]) == two;
    InsertAllBucket(map[], a.tags, a.id);
    assert a.tags[0] in a.tags && a.id in Bucket(one.byTags, a.tags[0]);
    assert two.byTags == one.byTags && Removed(two, b.id).byTags == one.byTags;
  }

  // ----- the store object

  ghost predicate Matches(r: Record, namespace: Option<string>, owner: Option<string>) {
    (namespace.Some? ==> r.namespace == namespace.value) && (owner.Some? ==> r.owner == owner.value)
  }

  /** The list holds every live record of which `p` is true exactly once, and nothing else. */
  ghost predicate Listing(byId: map<string, Record>, p: Record -> bool, records: seq<Record>) {
    && Distinct(records)
    && forall r :: r in records <==> r.id in byId && byId[r.id] == r && p(r)
  }

  datatype Stats = Stats(totalRecords: nat, namespaces: nat, tagCount: nat)

  ghost function Namespaces(byId: map<string, Record>): set<string> {
    set id | id in byId :: byId[id].namespace
  }

  ghost function Tags(byId: map<string, Record>): set<string> {
    set id, tag | id in byId && tag in byId[id].tags :: tag
  }

  /** With exact indexes the dictionaries' keys are what live records are found under. */
  lemma ExactKeys(ix: Index)
    requires Exact(ix)
    ensures ix.byNamespace.Keys == Namespaces(ix.byId) && ix.byTags.Keys == Tags(ix.byId)
  {
    forall key
      ensures key in ix.byNamespace <==> key in Namespaces(ix.byId)
    {
      KeyIffCarried(ix, ByNamespace, key);
    }
    forall key
      ensures key in ix.byTags <==> key in Tags(ix.byId)
    {
      KeyIffCarried(ix, ByTag, key);
    }
  }

  /** A key is in an exact dictionary if and only if some live record is found under it. */
  lemma KeyIffCarried(ix: Index, f: Field, key: string)
    requires Exact(ix)
    ensures key in BucketsOf(ix, f) <==> exists id :: id in ix.byId && Carries(f, ix.byId[id], key)
  {
    var b := BucketsOf(ix, f);
    assert Inverse(f, b, ix.byId);
    if key in b {
      var id :| id in b[key];
      assert id in Bucket(b, key);
      assert id in ix.byId && Carries(f, ix.byId[id], key);
    } else if id :| id in ix.byId && Carries(f, ix.byId[id], key) {
      assert id in Bucket(b, key) <==> id in ix.byId && Carries(f, ix.byId[id], key);
    }
  }

  class MemoryStore {
    const index: MemoryIndex

    constructor (index: MemoryIndex)
      ensures this.index == index
    {
      this.index := index;
    }

    ghost function Value(): Index
      reads index
    {
      index.Value()
    }

    method Add(record: Record) returns (r: Result<(), StoreError>)
      requires Keyed(index.byId)
      modifies index
      ensures Value() == After(old(Value()), Op.Add(record)) && Keyed(index.byId)
      ensures r == if record.id in old(index.byId) then Failure(Duplicate) else Success(())
      ensures index.byId == if r.Success? then old(index.byId)[record.id := record] else old(index.byId)
    {
      if record.id in index.byId {
        return Failure(Duplicate);
      }
      index.Add(record);
      return Success(());
    }

    method Get(recordId: string) returns (r: Result<Record, StoreError>)
      ensures r == if recordId in index.byId then Success(index.byId[recordId]) else Failure(NotFound)
    {
      if recordId !in index.byId {
        return Failure(NotFound);
      }
      return Success(index.byId[recordId]);
    }

    method Update(recordId: string, changes: Changes, now: int) returns (r: Result<Record, StoreError>)
      requires Keyed(index.byId)
      modifies index
      ensures Value() == After(old(Value()), Op.Update(recordId, changes, now)) && Keyed(index.byId)
      ensures match Perform(old(Value()), Op.Update(recordId, changes, now))
              case Success(_) => r == Success(Updated(old(index.byId)[recordId], changes, now))
              case Failure(e) => r == Failure(e)
      ensures r.Success? ==>
                && recordId in old(index.byId) && ChangedBy(old(index.byId)[recordId], changes, now, r.value)
                && index.byId == (old(index.byId) - {recordId})[r.value.id := r.value]
      ensures r.Failure? ==> index.byId == old(index.byId)
    {
      var current := Get(recordId);
      if current.Failure? {
        return Failure(current.error);
      }
      var updated := Updated(current.value, changes, now);
      if !ValidRecord(updated) {
        return Failure(Invalid);
      }
      index.Update(current.value, updated);
      return Success(updated);
    }

    method Replace(record: Record) returns (r: Result<(), StoreError>)
      requires Keyed(index.byId)
      modifies index
      ensures Value() == After(old(Value()), Op.Replace(record)) && Keyed(index.byId)
      ensures r == if record.id in old(index.byId) then Success(()) else Failure(NotFound)
      ensures index.byId == if r.Success? then old(index.byId)[record.id := record] else old(index.byId)
    {
      var existing := Get(record.id);
      if existing.Failure? {
        return Failure(NotFound);
      }
      index.Update(existing.value, record);
      return Success(());
    }

    method Delete(recordId: string) returns (r: Result<(), StoreError>)
      requires Keyed(index.byId)
      modifies index
      ensures Value() == After(old(Value()), Op.Delete(recordId)) && Keyed(index.byId)
      ensures r == if recordId in old(index.byId) then Success(()) else Failure(NotFound)
      ensures index.byId == old(index.byId) - {recordId}
    {
      if recordId !in index.byId {
        assert index.byId == index.byId - {recordId};
        return Failure(NotFound);
      }
      index.Remove(recordId);
      return Success(());
    }

    /** Removing record by record, in whatever order; with exact indexes nothing is left. */
    method Clear()
      modifies index
      ensures Value() == After(old(Value()), Op.Clear)
      ensures index.byId == map[]
      ensures old(Exact(Value())) ==> Value() == EMPTY
    {
      ghost var start, done := Value(), {};
      var todo := index.byId.Keys;
      PurgeNothing(start);
      while todo != {}
        invariant Value() == PurgedIndex(start, done) && start.byId.Keys == done + todo && done !! todo
        decreases todo
      {
        var id :| id in todo;
        PurgeStep(start, done, id);
        index.Remove(id);
        todo, done := todo - {id}, done + {id};
      }
      ClearedExactly(start);
      if Exact(start) {
        ExactIsNotStale(start);
      }
    }

    /** `list`, filtered through the indexes, holds exactly the records that a scan of all of
        them with the same filters would find. */
    method List(namespace: Option<string>, owner: Option<string>) returns (records: seq<Record>)
      requires Exact(Value())
      ensures Listing(index.byId, (r: Record) => Matches(r, namespace, owner), records)
    {
      assert Inverse(ByNamespace, BucketsOf(Value(), ByNamespace), index.byId);
      assert Inverse(ByOwner, BucketsOf(Value(), ByOwner), index.byId);
      var ids := index.byId.Keys;
      if namespace.Some? {
        ids := ids * Bucket(index.byNamespace, namespace.value);
      }
      if owner.Some? {
        ids := ids * Bucket(index.byOwner, owner.value);
      }
      assert forall id :: id in ids <==> id in index.byId && Matches(index.byId[id], namespace, owner);
      records := Lookup(index.byId, ids);
    }

    method StatsOf() returns (stats: Stats)
      requires Exact(Value())
      ensures stats == Stats(|index.byId|, |Namespaces(index.byId)|, |Tags(index.byId)|)
    {
      ExactKeys(Value());
      MapSize(index.byNamespace);
      MapSize(index.byTags);
      return Stats(|index.byId|, |index.byNamespace|, |index.byTags|);
    }
  }

  lemma MapSize<K, V>(m: map<K, V>)
    ensures |m| == |m.Keys|
  {
  }

  /** The records of some ids, in any order. */
  method Lookup(byId: map<string, Record>, ids: set<string>) returns (records: seq<Record>)
    requires Keyed(byId) && ids <= byId.Keys
    ensures Listing(byId, (r: Record) => r.id in ids, records)
  {
    records := [];
    var todo := ids;
    while todo != {}
      invariant todo <= ids && Distinct(records)
      invariant forall r :: r in records <==> r.id in byId && byId[r.id] == r && r.id in ids && r.id !in todo
      decreases todo
    {
      var id :| id in todo;
      todo := todo - {id};
      records := records + [byId[id]];
    }
  }
}
