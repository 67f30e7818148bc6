/** Retention policies (core/memory/retention.py) and the manager's cleanup that applies them
    (core/memory/manager.py). */
module MemoryRetention {
  import opened Wrappers
  import opened Sorting
  import opened MemoryIndex
  import opened MemoryStore

  /** The policies; `now` of a time-to-live policy is the moment it is asked. */
  datatype Policy = NeverForget | TimeToLive(ttlSeconds: int, now: int) | LeastRecentlyUsed(maxRecords: nat)
    | ImportanceThreshold(threshold: int)

  function OldestAccessFirst(): (Record, Record) -> bool {
    (a: Record, b: Record) => a.lastAccessed < b.lastAccessed
  }

  function RecordIds(records: seq<Record>): (ids: seq<string>)
    ensures |ids| == |records|
    ensures forall k :: 0 <= k < |ids| ==> ids[k] == records[k].id
  {
    seq(|records|, k requires 0 <= k < |records| => records[k].id)
  }

  function Filter(p: Record -> bool, records: seq<Record>): seq<Record> {
    if records == [] then []
    else
      var n := |records| - 1;
      Filter(p, records[..n]) + if p(records[n]) then [records[n]] else []
  }

  /** A slice from the start, as far as the list goes. */
  function Prefix<T>(xs: seq<T>, n: nat): seq<T> {
    if n <= |xs| then xs[..n] else xs
  }

  /** `select_candidates` */
  function SelectCandidates(policy: Policy, records: seq<Record>): seq<Record> {
    match policy
    case NeverForget => []
    case TimeToLive(ttl, now) => Filter((r: Record) => now - r.updatedAt > ttl, records)
    case ImportanceThreshold(threshold) => Filter((r: Record) => r.importance < threshold, records)
    case LeastRecentlyUsed(max) =>
      if |records| <= max then [] else Prefix(SortBy(OldestAccessFirst(), records), |records| - max)
  }

  lemma {:induction false} FilterMembers(p: Record -> bool, records: seq<Record>)
    ensures forall r :: r in Filter(p, records) <==> r in records && p(r)
    ensures Distinct(records) ==> Distinct(Filter(p, records))
  {
    if records != [] {
      var n := |records| - 1;
      FilterMembers(p, records[..n]);
      assert records == records[..n] + [records[n]];
    }
  }

  lemma SortedRecords(records: seq<Record>)
    ensures var sorted := SortBy(OldestAccessFirst(), records);
            && |sorted| == |records| && Ordered(OldestAccessFirst(), sorted)
            && (forall r :: r in sorted <==> r in records)
            && (Distinct(records) ==> Distinct(sorted))
  {
    var less := OldestAccessFirst();
    SortOrders(less, records);
    SortPermutes(less, records);
    SameMembers(SortBy(less, records), records);
    if Distinct(records) {
      PermutationKeepsDistinct(records, SortBy(less, records));
    }
  }

  /** Whatever the policy, the candidates are records of the list, each at most once. */
  lemma CandidatesAreRecords(policy: Policy, records: seq<Record>)
    requires Distinct(records)
    ensures Distinct(SelectCandidates(policy, records))
    ensures forall r :: r in SelectCandidates(policy, records) ==> r in records
    ensures policy.NeverForget? ==> SelectCandidates(policy, records) == []
  {
    match policy
    case NeverForget =>
    case TimeToLive(ttl, now) => FilterMembers((r: Record) => now - r.updatedAt > ttl, records);
    case ImportanceThreshold(threshold) => FilterMembers((r: Record) => r.importance < threshold, records);
    case LeastRecentlyUsed(max) => SortedRecords(records);
  }

  /** The threshold policies select exactly the records past the threshold. */
  lemma ThresholdsExact(policy: Policy, records: seq<Record>, r: Record)
    requires policy.TimeToLive? || policy.ImportanceThreshold?
    ensures r in SelectCandidates(policy, records) <==>
              r in records && if policy.TimeToLive? then policy.now - r.updatedAt > policy.ttlSeconds
                              else r.importance < policy.threshold
  {
    match policy
    case TimeToLive(ttl, now) => FilterMembers((r: Record) => now - r.updatedAt > ttl, records);
    case ImportanceThreshold(threshold) => FilterMembers((r: Record) => r.importance < threshold, records);
  }

  /** The least-recently-used policy selects exactly the overflow, and nothing selected was
      accessed later than anything spared. */
  lemma OverflowIsOldest(max: nat, records: seq<Record>)
    requires Distinct(records)
    ensures var selected := SelectCandidates(LeastRecentlyUsed(max), records);
            && |selected| == (if |records| <= max then 0 else |records| - max)
            && forall a, b :: a in selected && b in records && b !in selected ==> a.lastAccessed <= b.lastAccessed
  {
    SortedRecords(records);
    var sorted := SortBy(OldestAccessFirst(), records);
    if |records| > max {
      var n := |records| - max;
      forall a, b | a in sorted[..n] && b in records && b !in sorted[..n]
        ensures a.lastAccessed <= b.lastAccessed
      {
        PrefixRanksFirst(OldestAccessFirst(), sorted, n, a, b);
      }
    }
  }

  function Ids(records: seq<Record>): set<string> {
    set r | r in records :: r.id
  }

  /** `with_access` */
  function Accessed(r: Record, now: int): Record {
    r.(lastAccessed := now, accessCount := r.accessCount + 1)
  }

  /** One access more, the last one now, and everything else as it was. */
  ghost predicate AccessedNow(before: Record, after: Record, now: int) {
    && after.lastAccessed == now && after.accessCount == before.accessCount + 1
    && after.id == before.id && after.owner == before.owner && after.namespace == before.namespace
    && after.title == before.title && after.content == before.content && after.metadata == before.metadata
    && after.tags == before.tags && after.importance == before.importance && after.updatedAt == before.updatedAt
  }

  class MemoryManager {
    const store: MemoryStore

    constructor (store: MemoryStore)
      ensures this.store == store
    {
      this.store := store;
    }

    method Forget(memoryId: string) returns (r: Result<(), StoreError>)
      requires Exact(store.Value())
      modifies store.index
      ensures Exact(store.Value())
      ensures r == if memoryId in old(store.index.byId) then Success(()) else Failure(NotFound)
      ensures store.index.byId == old(store.index.byId) - {memoryId}
    {
      var record := store.Get(memoryId);
      RemoveExact(store.Value(), memoryId);
      if record.Failure? {
        return Failure(NotFound);
      }
      r := store.Delete(memoryId);
    }

    /** Recalling a record stamps it and counts the access; nothing else changes. */
    method Recall(memoryId: string, now: int) returns (r: Result<Record, StoreError>)
      requires Exact(store.Value())
      modifies store.index
      ensures Exact(store.Value())
      ensures if memoryId in old(store.index.byId) then
                && r.Success? && AccessedNow(old(store.index.byId)[memoryId], r.value, now)
                && store.index.byId == old(store.index.byId)[memoryId := r.value]
              else
                r == Failure(NotFound) && store.Value() == old(store.Value())
    {
      var found := store.Get(memoryId);
      if found.Failure? {
        return Failure(NotFound);
      }
      var updated := Accessed(found.value, now);
      RemoveExact(store.Value(), memoryId);
      AddExact(Removed(store.Value(), memoryId), updated);
      var _ := store.Replace(updated);
      return Success(updated);
    }

    /** `cleanup` with nothing else running: exactly the records that the policy selects are
        forgotten, none of them is missing when its turn comes, and the indexes stay exact. */
    method Cleanup(policy: Policy) returns (candidates: seq<Record>)
      requires Exact(store.Value())
      modifies store.index
      ensures Exact(store.Value())
      ensures exists records ::
                && Listing(old(store.index.byId), AnyRecord(), records)
                && candidates == SelectCandidates(policy, records)
      ensures store.index.byId == old(store.index.byId) - Ids(candidates)
    {
      ghost var before := store.index.byId;
      var records := store.List(None, None);
      assert Listing(before, AnyRecord(), records);
      candidates := SelectCandidates(policy, records);
      CandidatesAreRecords(policy, records);
      var ids := RecordIds(candidates);
      for k := 0 to |ids|
        invariant Exact(store.Value())
        invariant store.index.byId == before - Ids(candidates[..k])
      {
        assert candidates[k] in candidates;
        NotYetForgotten(before, candidates, k);
        var gone := Forget(ids[k]);
        assert gone.Success?;
        assert candidates[..k + 1] == candidates[..k] + [candidates[k]];
        assert Ids(candidates[..k + 1]) == Ids(candidates[..k]) + {ids[k]};
      }
      assert candidates[..|ids|] == candidates;
    }
  }

  function AnyRecord(): Record -> bool {
    (_: Record) => true
  }

  lemma NotYetForgotten(byId: map<string, Record>, candidates: seq<Record>, k: nat)
    requires k < |candidates| && Distinct(candidates)
    requires forall r :: r in candidates ==> r.id in byId && byId[r.id] == r
    ensures candidates[k].id in byId - Ids(candidates[..k])
  {
    forall r | r in candidates[..k]
      ensures r.id != candidates[k].id
    {
      var i :| 0 <= i < k && candidates[i] == r;
      assert r in candidates && candidates[k] in candidates;
    }
    assert candidates[k] in candidates;
  }

  // ----- what a least-recently-used cleanup leaves

  function Min(a: nat, b: nat): nat {
    if a < b then a else b
  }

  ghost predicate CleanedUp(policy: Policy, before: map<string, Record>, records: seq<Record>, after: map<string, Record>) {
    && Listing(before, AnyRecord(), records)
    && after == before - Ids(SelectCandidates(policy, records))
  }

  lemma ListingSize(byId: map<string, Record>, records: seq<Record>)
    requires Keyed(byId) && Listing(byId, AnyRecord(), records)
    ensures |records| == |byId| && Ids(records) == byId.Keys
  {
    DistinctIds(byId, records);
    assert Ids(records) == byId.Keys by {
      forall id | id in byId
        ensures id in Ids(records)
      {
        assert byId[id] in records;
      }
    }
    assert |byId| == |byId.Keys|;
  }

  /** Distinct records of a keyed map have distinct ids. */
  lemma DistinctIds(byId: map<string, Record>, records: seq<Record>)
    requires Distinct(records) && forall r :: r in records ==> r.id in byId && byId[r.id] == r
    ensures |Ids(records)| == |records|
  {
    var ids := RecordIds(records);
    forall i, j | 0 <= i < j < |ids|
      ensures ids[i] != ids[j]
    {
      assert records[i] in records && records[j] in records;
    }
    DistinctLength(ids);
    assert (set x | x in ids) == Ids(records) by {
      forall r | r in records
        ensures r.id in ids
      {
        var k :| 0 <= k < |records| && records[k] == r;
        assert ids[k] == r.id;
      }
    }
  }

  /** An uninterrupted least-recently-used cleanup leaves exactly min(n, max) records, forgets no
      record that was accessed later than a survivor, and changes no survivor. */
  lemma LruCleanup(max: nat, before: map<string, Record>, records: seq<Record>, after: map<string, Record>)
    requires Keyed(before) && CleanedUp(LeastRecentlyUsed(max), before, records, after)
    ensures |after| == Min(|before|, max)
    ensures forall id :: id in after ==> id in before && after[id] == before[id]
    ensures forall gone, id :: gone in before && gone !in after && id in after ==>
              before[gone].lastAccessed <= after[id].lastAccessed
  {
    LruSize(max, before, records, after);
    forall gone, id | gone in before && gone !in after && id in after
      ensures before[gone].lastAccessed <= after[id].lastAccessed
    {
      ForgottenIsOlder(max, before, records, gone, id);
    }
  }

  /** The record accessed last of all survives every least-recently-used cleanup that keeps any
      record at all. */
  lemma LastAccessedSurvives(max: nat, before: map<string, Record>, records: seq<Record>, after: map<string, Record>,
                             id: string)
    requires Keyed(before) && CleanedUp(LeastRecentlyUsed(max), before, records, after)
    requires id in before && max > 0
    requires forall other :: other in before && other != id ==> before[other].lastAccessed < before[id].lastAccessed
    ensures id in after && after[id] == before[id]
  {
    LruCleanup(max, before, records, after);
    assert id in before.Keys && |before| == |before.Keys|;
    assert |after| == |after.Keys|;
    var survivor :| survivor in after.Keys;
    assert after[survivor] == before[survivor];
  }

  lemma LruSize(max: nat, before: map<string, Record>, records: seq<Record>, after: map<string, Record>)
    requires Keyed(before) && CleanedUp(LeastRecentlyUsed(max), before, records, after)
    ensures |after| == Min(|before|, max)
  {
    var selected := SelectCandidates(LeastRecentlyUsed(max), records);
    CandidatesAreRecords(LeastRecentlyUsed(max), records);
    OverflowIsOldest(max, records);
    ListingSize(before, records);
    DistinctIds(before, selected);
    Remaining(before, Ids(selected));
  }

  lemma ForgottenIsOlder(max: nat, before: map<string, Record>, records: seq<Record>, gone: string, id: string)
    requires Keyed(before) && Listing(before, AnyRecord(), records)
    requires gone in Ids(SelectCandidates(LeastRecentlyUsed(max), records))
    requires id in before && id !in Ids(SelectCandidates(LeastRecentlyUsed(max), records)) && gone in before
    ensures before[gone].lastAccessed <= before[id].lastAccessed
  {
    CandidatesAreRecords(LeastRecentlyUsed(max), records);
    OverflowIsOldest(max, records);
    assert before[id] in records;
  }

  lemma Remaining(m: map<string, Record>, gone: set<string>)
    requires gone <= m.Keys
    ensures |m - gone| == |m| - |gone|
  {
    assert m.Keys == (m - gone).Keys + gone;
    assert |m - gone| == |(m - gone).Keys| && |m| == |m.Keys|;
  }

  /** A second cleanup with the same policy forgets nothing. */
  lemma LruCleanupTwice(max: nat, before: map<string, Record>, records: seq<Record>, middle: map<string, Record>,
                        records': seq<Record>, after: map<string, Record>)
    requires Keyed(before) && CleanedUp(LeastRecentlyUsed(max), before, records, middle)
    requires CleanedUp(LeastRecentlyUsed(max), middle, records', after)
    ensures SelectCandidates(LeastRecentlyUsed(max), records') == [] && after == middle
  {
    LruCleanup(max, before, records, middle);
    SurvivorsKeyed(before, middle);
    FittingCleanup(max, middle, records', after);
  }

  /** A cleanup of no more records than allowed forgets nothing. */
  lemma FittingCleanup(max: nat, before: map<string, Record>, records: seq<Record>, after: map<string, Record>)
    requires Keyed(before) && CleanedUp(LeastRecentlyUsed(max), before, records, after) && |before| <= max
    ensures SelectCandidates(LeastRecentlyUsed(max), records) == [] && after == before
  {
    ListingSize(before, records);
    OverflowIsOldest(max, records);
    NothingSelected(before);
  }

  lemma SurvivorsKeyed(before: map<string, Record>, after: map<string, Record>)
    requires Keyed(before) && forall id :: id in after ==> id in before && after[id] == before[id]
    ensures Keyed(after)
  {
  }

  lemma NothingSelected(m: map<string, Record>)
    ensures m - Ids([]) == m
  {
    assert Ids([]) == {};
  }
}
