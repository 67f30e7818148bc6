/** Rule-based search over the indexes (core/memory/search.py): every query answers what a scan of
    all live records would answer. */
module MemorySearch {
  import opened Wrappers
  import opened Sorting
  import opened MemoryIndex
  import opened MemoryStore

  datatype Query = Query(text: string, tags: seq<string>, namespace: Option<string>, limit: int)

  datatype Hit = Hit(record: Record, score: real)

  datatype SearchError = BadLimit

  // ----- text

  /** The characters that `str.strip` takes for white space. */
  predicate IsSpace(c: char) {
    var n := c as int;
    || 0x09 <= n <= 0x0d || 0x1c <= n <= 0x20 || n == 0x85 || n == 0xa0 || n == 0x1680
    || 0x2000 <= n <= 0x200a || n == 0x2028 || n == 0x2029 || n == 0x202f || n == 0x205f || n == 0x3000
  }

  function Strip(s: string): string {
    if s == [] then s
    else if IsSpace(s[0]) then Strip(s[1..])
    else if IsSpace(s[|s| - 1]) then Strip(s[..|s| - 1])
    else s
  }

  function LowerChar(c: char): char {
    if 'A' <= c <= 'Z' then (c as int - 'A' as int + 'a' as int) as char else c
  }

  function Lower(s: string): string {
    seq(|s|, i requires 0 <= i < |s| => LowerChar(s[i]))
  }

  /** `text in s` for strings */
  predicate Contains(s: string, text: string) {
    |text| <= |s| && (text <= s || Contains(s[1..], text))
  }

  function Normalized(text: string): string {
    Lower(Strip(text))
  }

  // ----- what these do to texts

  predicate OccursAt(s: string, text: string, i: int) {
    0 <= i <= |s| - |text| && s[i..i + |text|] == text
  }

  /** The text occurs in `s` at some position. */
  ghost predicate OccursIn(s: string, text: string) {
    exists i :: OccursAt(s, text, i)
  }

  lemma {:induction false} ContainsExactly(s: string, text: string)
    ensures Contains(s, text) <==> OccursIn(s, text)
  {
    if |text| <= |s| {
      if text <= s {
        assert OccursAt(s, text, 0);
      } else {
        ContainsExactly(s[1..], text);
        if i :| OccursAt(s[1..], text, i) {
          assert s[1..][i..i + |text|] == s[i + 1..i + 1 + |text|];
          assert OccursAt(s, text, i + 1);
        }
        if i :| OccursAt(s, text, i) {
          assert i > 0;
          assert s[1..][i - 1..i - 1 + |text|] == s[i..i + |text|];
          assert OccursAt(s[1..], text, i - 1);
        }
      }
    }
  }

  /** Everything before `a` and from `b` on is white space, and what is between does not begin or end
      with white space. */
  ghost predicate StripsTo(s: string, a: int, b: int) {
    && 0 <= a <= b <= |s|
    && (forall i :: 0 <= i < a || b <= i < |s| ==> IsSpace(s[i]))
    && (a < b ==> !IsSpace(s[a]) && !IsSpace(s[b - 1]))
  }

  lemma StripsFront(s: string, a: int, b: int)
    requires s != [] && IsSpace(s[0]) && StripsTo(s[1..], a, b)
    ensures StripsTo(s, a + 1, b + 1) && s[1..][a..b] == s[a + 1..b + 1]
  {
    forall i | 0 <= i < a + 1 || b + 1 <= i < |s|
      ensures IsSpace(s[i])
    {
      assert i > 0 ==> s[i] == s[1..][i - 1];
    }
  }

  lemma StripsBack(s: string, a: int, b: int)
    requires s != [] && IsSpace(s[|s| - 1]) && StripsTo(s[..|s| - 1], a, b)
    ensures StripsTo(s, a, b) && s[..|s| - 1][a..b] == s[a..b]
  {
    forall i | 0 <= i < a || b <= i < |s|
      ensures IsSpace(s[i])
    {
      assert i < |s| - 1 ==> s[i] == s[..|s| - 1][i];
    }
  }

  /** What is between the white space at both ends. */
  lemma {:induction false} StripExactly(s: string)
    ensures exists a, b :: StripsTo(s, a, b) && Strip(s) == s[a..b]
  {
    if s == [] {
      assert StripsTo(s, 0, 0);
    } else if IsSpace(s[0]) {
      StripExactly(s[1..]);
      var a, b :| StripsTo(s[1..], a, b) && Strip(s[1..]) == s[1..][a..b];
      StripsFront(s, a, b);
    } else if IsSpace(s[|s| - 1]) {
      StripExactly(s[..|s| - 1]);
      var a, b :| StripsTo(s[..|s| - 1], a, b) && Strip(s[..|s| - 1]) == s[..|s| - 1][a..b];
      StripsBack(s, a, b);
    } else {
      assert StripsTo(s, 0, |s|);
      assert s[0..|s|] == s;
    }
  }

  /** The capitals of ASCII become their small letters, everything else stays. */
  lemma LowerExactly(s: string, i: nat)
    requires i < |s|
    ensures |Lower(s)| == |s|
    ensures if 0x41 <= s[i] as int <= 0x5a then Lower(s)[i] as int == s[i] as int + 0x20 else Lower(s)[i] == s[i]
  {
  }

  // ----- the score

  function MatchingMetadata(r: Record, text: string): set<string> {
    set key | key in r.metadata && Contains(Lower(r.metadata[key]), text)
  }

  function SharedTags(a: seq<string>, b: seq<string>): set<string> {
    set tag | tag in a && tag in b
  }

  /** Two points for the title, one for the content, half for the namespace and for each metadata
      value that contains the text, and one for each tag in common. */
  ghost function Score(r: Record, q: Query): real {
    var text := Normalized(q.text);
    (if text == [] then 0.0 else
       (if Contains(Lower(r.title), text) then 2.0 else 0.0)
       + (if Contains(Lower(r.content), text) then 1.0 else 0.0)
       + (if Contains(Lower(r.namespace), text) then 0.5 else 0.0)
       + 0.5 * |MatchingMetadata(r, text)| as real)
    + |SharedTags(q.tags, r.tags)| as real
  }

  method ScoreRecord(record: Record, query: Query) returns (score: real)
    ensures score == Score(record, query)
  {
    score := 0.0;
    var text := Normalized(query.text);
    if text != [] {
      if Contains(Lower(record.title), text) {
        score := score + 2.0;
      }
      if Contains(Lower(record.content), text) {
        score := score + 1.0;
      }
      if Contains(Lower(record.namespace), text) {
        score := score + 0.5;
      }
      ghost var base := score;
      ghost var seen: set<string> := {};
      var todo := record.metadata.Keys;
      while todo != {}
        invariant todo <= record.metadata.Keys
        invariant seen == set key | key in MatchingMetadata(record, text) && key !in todo
        invariant score == base + 0.5 * |seen| as real
        decreases todo
      {
        var key :| key in todo;
        ghost var before := seen;
        todo := todo - {key};
        seen := set k | k in MatchingMetadata(record, text) && k !in todo;
        if Contains(Lower(record.metadata[key]), text) {
          score := score + 0.5;
          assert seen == before + {key};
        } else {
          assert seen == before;
        }
      }
      assert seen == MatchingMetadata(record, text);
    }
    if query.tags != [] {
      score := score + |SharedTags(query.tags, record.tags)| as real;
    } else {
      assert SharedTags(query.tags, record.tags) == {};
    }
  }

  /** The score by where the query's text occurs: two points in the title, one in the content, half a
      point in the namespace and in each metadata value, and one for each tag in common. */
  lemma ScoreExactly(r: Record, q: Query)
    ensures var text := Lower(Strip(q.text));
            Score(r, q) == (if text == [] then 0.0 else
                              (if OccursIn(Lower(r.title), text) then 2.0 else 0.0)
                              + (if OccursIn(Lower(r.content), text) then 1.0 else 0.0)
                              + (if OccursIn(Lower(r.namespace), text) then 0.5 else 0.0)
                              + 0.5 * |set key | key in r.metadata && OccursIn(Lower(r.metadata[key]), text)| as real)
                           + |set tag | tag in q.tags && tag in r.tags| as real
  {
    var text := Lower(Strip(q.text));
    ContainsExactly(Lower(r.title), text);
    ContainsExactly(Lower(r.content), text);
    ContainsExactly(Lower(r.namespace), text);
    forall key | key in r.metadata
      ensures Contains(Lower(r.metadata[key]), text) <==> OccursIn(Lower(r.metadata[key]), text)
    {
      ContainsExactly(Lower(r.metadata[key]), text);
    }
    assert MatchingMetadata(r, text) == set key | key in r.metadata && OccursIn(Lower(r.metadata[key]), text);
    assert SharedTags(q.tags, r.tags) == set tag | tag in q.tags && tag in r.tags;
  }

  // ----- rankings

  function ByScore(): (Hit, Hit) -> bool {
    (a: Hit, b: Hit) => a.score > b.score || (a.score == b.score && a.record.updatedAt < b.record.updatedAt)
  }

  function NewestFirst(): (Hit, Hit) -> bool {
    (a: Hit, b: Hit) => a.record.updatedAt > b.record.updatedAt
  }

  function LastAccessedFirst(): (Hit, Hit) -> bool {
    (a: Hit, b: Hit) => a.record.lastAccessed > b.record.lastAccessed
  }

  function ByImportance(): (Hit, Hit) -> bool {
    (a: Hit, b: Hit) => a.record.importance > b.record.importance
              || (a.record.importance == b.record.importance && a.record.updatedAt < b.record.updatedAt)
  }

  lemma RankingsAreOrders()
    ensures WeakOrder(ByScore()) && WeakOrder(NewestFirst())
    ensures WeakOrder(LastAccessedFirst()) && WeakOrder(ByImportance())
  {
  }

  /** The first `limit` of all hits in ranking order: as many as there are up to the limit, no
      record twice, each a hit, in order, and no omitted hit ranks strictly before a listed one. */
  ghost predicate BestOf(less: (Hit, Hit) -> bool, isHit: Hit -> bool, total: nat, limit: nat, hits: seq<Hit>) {
    && |hits| == (if total < limit then total else limit)
    && Distinct(hits)
    && (forall h :: h in hits ==> isHit(h))
    && Ordered(less, hits)
    && forall h, o :: h in hits && isHit(o) && o !in hits ==> !less(o, h)
  }

  lemma PrefixIsBest(less: (Hit, Hit) -> bool, isHit: Hit -> bool, all: seq<Hit>, limit: nat)
    requires WeakOrder(less) && Distinct(all) && forall h :: h in all <==> isHit(h)
    ensures var sorted := SortBy(less, all);
            |sorted| == |all|
            && BestOf(less, isHit, |all|, limit, sorted[..if |all| < limit then |all| else limit])
  {
    var sorted := SortBy(less, all);
    SortOrders(less, all);
    SortPermutes(less, all);
    SameMembers(sorted, all);
    PermutationKeepsDistinct(all, sorted);
    var n := if |all| < limit then |all| else limit;
    var hits := sorted[..n];
    PrefixStays(less, sorted, n);
    forall h, o | h in hits && isHit(o) && o !in hits
      ensures !less(o, h)
    {
      PrefixRanksFirst(less, sorted, n, h, o);
    }
  }

  // ----- queries

  /** What a full scan would call a match. */
  ghost predicate Found(byId: map<string, Record>, q: Query, h: Hit) {
    && h.record.id in byId && byId[h.record.id] == h.record
    && (q.namespace.Some? && q.namespace.value != "" ==> h.record.namespace == q.namespace.value)
    && h.score == Score(h.record, q)
    && (h.score > 0.0 || q.text == "")
  }

  ghost function AllFound(byId: map<string, Record>, q: Query): set<string> {
    set id | id in byId && Found(byId, q, Hit(byId[id], Score(byId[id], q)))
  }

  ghost predicate CarriesAll(byId: map<string, Record>, tags: seq<string>, namespace: Option<string>, h: Hit) {
    && h.record.id in byId && byId[h.record.id] == h.record && h.score == 1.0
    && (forall tag :: tag in tags ==> tag in h.record.tags)
    && (namespace.Some? ==> h.record.namespace == namespace.value)
  }

  ghost predicate Live(byId: map<string, Record>, h: Hit) {
    h.record.id in byId && byId[h.record.id] == h.record
  }

  ghost function IsFound(byId: map<string, Record>, q: Query): Hit -> bool {
    h => Found(byId, q, h)
  }

  ghost function IsLive(byId: map<string, Record>, score: Record -> real): Hit -> bool {
    h => Live(byId, h) && h.score == score(h.record)
  }

  const PLAIN: Record -> real := (_: Record) => 1.0
  const IMPORTANCE: Record -> real := (r: Record) => r.importance as real

  class SearchEngine {
    const index: MemoryIndex

    constructor (index: MemoryIndex)
      ensures this.index == index
    {
      this.index := index;
    }

    /** A prefix of the (-score, updated_at) ranking of exactly the records that a scan finds. */
    method Search(query: Query) returns (r: Result<seq<Hit>, SearchError>)
      requires Exact(index.Value())
      ensures r.Failure? <==> query.limit <= 0
      ensures r.Success? ==>
                BestOf(ByScore(), IsFound(index.byId, query), |AllFound(index.byId, query)|, query.limit, r.value)
      ensures r.Success? ==> forall i, j :: 0 <= i < j < |r.value| ==>
                || r.value[i].score > r.value[j].score
                || (r.value[i].score == r.value[j].score
                    && r.value[i].record.updatedAt <= r.value[j].record.updatedAt)
    {
      if query.limit <= 0 {
        return Failure(BadLimit);
      }
      var candidates := index.byId.Keys;
      if query.namespace.Some? && query.namespace.value != "" {
        assert Inverse(ByNamespace, BucketsOf(index.Value(), ByNamespace), index.byId);
        candidates := Bucket(index.byNamespace, query.namespace.value);
      }
      var results := Collect(query, candidates);
      RankingsAreOrders();
      PrefixIsBest(ByScore(), IsFound(index.byId, query), results, query.limit);
      CountFound(index.byId, query, results);
      results := SortBy(ByScore(), results);
      return Success(results[..if |results| < query.limit then |results| else query.limit]);
    }

    /** Score the candidates one by one, keeping those that match. */
    method Collect(query: Query, candidates: set<string>) returns (results: seq<Hit>)
      requires Keyed(index.byId)
      requires forall id :: id in candidates <==>
                 id in index.byId && (query.namespace.Some? && query.namespace.value != "" ==>
                                        index.byId[id].namespace == query.namespace.value)
      ensures Distinct(results) && forall h :: h in results <==> Found(index.byId, query, h)
    {
      results := [];
      var todo := candidates;
      while todo != {}
        invariant todo <= candidates && Distinct(results)
        invariant forall h :: h in results <==> Found(index.byId, query, h) && h.record.id !in todo
        decreases todo
      {
        var memoryId :| memoryId in todo;
        todo := todo - {memoryId};
        var record := index.byId[memoryId];
        var score := ScoreRecord(record, query);
        if score > 0.0 || query.text == "" {
          results := results + [Hit(record, score)];
        }
      }
    }

    /** Exactly the records that carry all the tags, the latest updated first. */
    method SearchTags(tags: seq<string>, namespace: Option<string>) returns (hits: seq<Hit>)
      requires Exact(index.Value())
      ensures Distinct(hits)
      ensures forall i, j :: 0 <= i < j < |hits| ==> hits[i].record.updatedAt >= hits[j].record.updatedAt
      ensures forall h :: h in hits <==> CarriesAll(index.byId, tags, namespace, h)
    {
      var candidates := index.byId.Keys;
      if namespace.Some? {
        assert Inverse(ByNamespace, BucketsOf(index.Value(), ByNamespace), index.byId);
        candidates := candidates * Bucket(index.byNamespace, namespace.value);
      }
      ghost var start := candidates;
      assert Inverse(ByTag, BucketsOf(index.Value(), ByTag), index.byId);
      for k := 0 to |tags|
        invariant forall id :: id in candidates <==>
                    id in start && forall j :: 0 <= j < k ==> tags[j] in index.byId[id].tags
      {
        candidates := candidates * Bucket(index.byTags, tags[k]);
      }
      hits := Hits(candidates, PLAIN);
      SortPermutes(NewestFirst(), hits);
      SameMembers(SortBy(NewestFirst(), hits), hits);
      PermutationKeepsDistinct(hits, SortBy(NewestFirst(), hits));
      RankingsAreOrders();
      SortOrders(NewestFirst(), hits);
      hits := SortBy(NewestFirst(), hits);
    }

    method Hits(ids: set<string>, score: Record -> real) returns (hits: seq<Hit>)
      requires Keyed(index.byId) && ids <= index.byId.Keys
      ensures Distinct(hits) && |hits| == |ids|
      ensures forall h :: h in hits <==> Live(index.byId, h) && h.record.id in ids && h.score == score(h.record)
    {
      hits := [];
      var todo := ids;
      while todo != {}
        invariant todo <= ids && Distinct(hits) && |hits| == |ids| - |todo|
        invariant forall h :: h in hits <==>
                    Live(index.byId, h) && h.record.id in ids && h.record.id !in todo && h.score == score(h.record)
        decreases todo
      {
        var id :| id in todo;
        todo := todo - {id};
        hits := hits + [Hit(index.byId[id], score(index.byId[id]))];
      }
    }

    /** The `limit` most recently accessed records. */
    method Recent(limit: int) returns (r: Result<seq<Hit>, SearchError>)
      requires Keyed(index.byId)
      ensures r.Failure? <==> limit <= 0
      ensures r.Success? ==>
                BestOf(LastAccessedFirst(), IsLive(index.byId, PLAIN), |index.byId|, limit, r.value)
      ensures r.Success? ==> forall i, j :: 0 <= i < j < |r.value| ==>
                r.value[i].record.lastAccessed >= r.value[j].record.lastAccessed
    {
      if limit <= 0 {
        return Failure(BadLimit);
      }
      var hits := Hits(index.byId.Keys, PLAIN);
      RankingsAreOrders();
      PrefixIsBest(LastAccessedFirst(), IsLive(index.byId, PLAIN), hits, limit);
      hits := SortBy(LastAccessedFirst(), hits);
      return Success(hits[..if |hits| < limit then |hits| else limit]);
    }

    /** The `limit` most important records, of equals the earliest updated first. */
    method Important(limit: int) returns (r: Result<seq<Hit>, SearchError>)
      requires Keyed(index.byId)
      ensures r.Failure? <==> limit <= 0
      ensures r.Success? ==> BestOf(ByImportance(), IsLive(index.byId, IMPORTANCE), |index.byId|, limit, r.value)
      ensures r.Success? ==> forall i, j :: 0 <= i < j < |r.value| ==>
                || r.value[i].record.importance > r.value[j].record.importance
                || (r.value[i].record.importance == r.value[j].record.importance
                    && r.value[i].record.updatedAt <= r.value[j].record.updatedAt)
    {
      if limit <= 0 {
        return Failure(BadLimit);
      }
      var hits := Hits(index.byId.Keys, IMPORTANCE);
      RankingsAreOrders();
      PrefixIsBest(ByImportance(), IsLive(index.byId, IMPORTANCE), hits, limit);
      hits := SortBy(ByImportance(), hits);
      return Success(hits[..if |hits| < limit then |hits| else limit]);
    }

    method SearchNamespace(namespace: string) returns (hits: seq<Hit>)
      requires Exact(index.Value())
      ensures Distinct(hits)
      ensures forall h :: h in hits <==> CarriesAll(index.byId, [], Some(namespace), h)
    {
      assert Inverse(ByNamespace, BucketsOf(index.Value(), ByNamespace), index.byId);
      hits := Hits(Bucket(index.byNamespace, namespace), PLAIN);
    }
  }

  /** Distinct hits that are exactly the matches are as many as there are matching ids. */
  lemma CountFound(byId: map<string, Record>, q: Query, hits: seq<Hit>)
    requires Keyed(byId) && Distinct(hits) && forall h :: h in hits <==> Found(byId, q, h)
    ensures |hits| == |AllFound(byId, q)|
  {
    var ids := seq(|hits|, i requires 0 <= i < |hits| => hits[i].record.id);
    forall i, j | 0 <= i < j < |ids|
      ensures ids[i] != ids[j]
    {
      assert hits[i] in hits && hits[j] in hits;
    }
    DistinctLength(ids);
    forall id
      ensures id in ids <==> id in AllFound(byId, q)
    {
      if id in ids {
        var i :| 0 <= i < |ids| && ids[i] == id;
        assert hits[i] in hits;
      }
      if id in AllFound(byId, q) {
        var h := Hit(byId[id], Score(byId[id], q));
        assert h in hits;
        var i :| 0 <= i < |hits| && hits[i] == h;
        assert ids[i] == id;
      }
    }
    assert (set x | x in ids) == AllFound(byId, q);
  }

  // ----- what a search cannot miss

  /** When the limit is large enough, every match is among the results. */
  lemma LargeSearchFindsAll(byId: map<string, Record>, q: Query, hits: seq<Hit>, h: Hit)
    requires Keyed(byId) && q.limit >= 0
    requires BestOf(ByScore(), IsFound(byId, q), |AllFound(byId, q)|, q.limit, hits)
    requires |AllFound(byId, q)| <= q.limit && Found(byId, q, h)
    ensures h in hits
  {
    var ids := seq(|hits|, i requires 0 <= i < |hits| => hits[i].record.id);
    forall i, j | 0 <= i < j < |ids|
      ensures ids[i] != ids[j]
    {
      assert hits[i] in hits && hits[j] in hits;
    }
    DistinctLength(ids);
    var found := set x | x in ids;
    forall x | x in found
      ensures x in AllFound(byId, q)
    {
      var i :| 0 <= i < |ids| && ids[i] == x;
      assert hits[i] in hits;
    }
    SameSizeSubset(found, AllFound(byId, q));
    assert h.record.id in found;
    var i :| 0 <= i < |ids| && ids[i] == h.record.id;
    assert hits[i] in hits;
  }

  lemma SameSizeSubset(a: set<string>, b: set<string>)
    requires a <= b && |a| == |b|
    ensures a == b
  {
    assert b == a + (b - a);
  }

  lemma AllFoundFits(byId: map<string, Record>, q: Query)
    ensures |AllFound(byId, q)| <= |byId|
  {
    var rest := byId.Keys - AllFound(byId, q);
    assert byId.Keys == AllFound(byId, q) + rest;
    assert |byId| == |byId.Keys|;
  }

  /** A record of the namespace asked for whose title has the query's text anywhere, but for case and
      outer white space, is among the results of every search with room for all records. */
  lemma TitleIsFound(byId: map<string, Record>, q: Query, hits: seq<Hit>, r: Record)
    requires Keyed(byId) && q.limit >= 0
    requires BestOf(ByScore(), IsFound(byId, q), |AllFound(byId, q)|, q.limit, hits)
    requires |byId| <= q.limit && r.id in byId && byId[r.id] == r
    requires q.namespace.None? || q.namespace.value == "" || r.namespace == q.namespace.value
    requires Lower(Strip(q.text)) != [] && OccursIn(Lower(r.title), Lower(Strip(q.text)))
    ensures Hit(r, Score(r, q)) in hits && Score(r, q) >= 2.0
  {
    ScoreExactly(r, q);
    AllFoundFits(byId, q);
    LargeSearchFindsAll(byId, q, hits, Hit(r, Score(r, q)));
  }
}
