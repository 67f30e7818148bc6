/** The mock file bridge (core/android/bridge/files.py) and the write capability that executes and
    rolls back actions on it (core/android/capabilities/files.py). */
module FileRollback {
  import opened Wrappers

  /** The arguments that the actions look at; a key that is missing is `None`. */
  datatype Request = Request(
    action: Option<string>, path: Option<string>, content: Option<string>,
    source: Option<string>, destination: Option<string>)

  /** The dictionary in a result: the path, and the state before, which is a file entry or a pair
      of paths.  A failed action has the empty dictionary. */
  datatype Data<+E> = Data(path: Option<string>, entry: Option<E>, moved: Option<(string, string)>)

  datatype CapabilityResult<+E> = CapabilityResult(success: bool, data: Data<E>)

  type Files = map<string, string>

  const WRITE_ACTIONS := ["files.create", "files.write", "files.rename", "files.move", "files.delete"]

  predicate Given(o: Option<string>) {
    o.Some? && o.value != ""
  }

  predicate IsMove(action: string) {
    action == "files.rename" || action == "files.move"
  }

  // ----- what executing and rolling back do to the contents of the files

  /** The write actions succeed under these conditions only. */
  predicate Applicable(v: Files, q: Request) {
    && q.action.Some?
    && match q.action.value
       case "files.create" => Given(q.path) && q.path.value !in v
       case "files.write" => Given(q.path) && q.path.value in v
       case "files.delete" => Given(q.path) && q.path.value in v
       case "files.rename" => Movable(v, q)
       case "files.move" => Movable(v, q)
       case _ => false
  }

  predicate Movable(v: Files, q: Request) {
    Given(q.source) && Given(q.destination) && q.source.value in v && q.destination.value !in v
  }

  function ContentOf(q: Request): string {
    if q.content.Some? then q.content.value else ""
  }

  function Moved(v: Files, source: string, destination: string): Files
    requires source in v
  {
    (v - {source})[destination := v[source]]
  }

  function Executed(v: Files, q: Request): Files {
    if !Applicable(v, q) then v
    else
      match q.action.value
      case "files.create" => v[q.path.value := ContentOf(q)]
      case "files.write" => v[q.path.value := ContentOf(q)]
      case "files.delete" => v - {q.path.value}
      case _ => Moved(v, q.source.value, q.destination.value)
  }

  // ----- the same said of the files before and after

  /** In terms of arguments and paths, when an action succeeds. */
  ghost predicate Possible(v: Files, q: Request) {
    || (q.action == Some("files.create") && q.path.Some? && q.path.value != "" && q.path.value !in v)
    || (q.action in {Some("files.write"), Some("files.delete")} && q.path.Some? && q.path.value != "" && q.path.value in v)
    || (q.action in {Some("files.rename"), Some("files.move")}
        && q.source.Some? && q.source.value != "" && q.source.value in v
        && q.destination.Some? && q.destination.value != "" && q.destination.value !in v)
  }

  ghost predicate SameBut(before: Files, after: Files, paths: set<string>) {
    forall p :: p !in paths ==> (p in after <==> p in before) && (p in before ==> after[p] == before[p])
  }

  /** A created or written path has the given content, or none if none is given; a deleted path is gone;
      a moved file is at its destination and not at its source; every other path is as before. */
  ghost predicate Does(before: Files, after: Files, q: Request) {
    && (q.action in {Some("files.create"), Some("files.write")} ==>
          && q.path.Some? && q.path.value in after && SameBut(before, after, {q.path.value})
          && after[q.path.value] == match q.content { case Some(c) => c case None => "" })
    && (q.action == Some("files.delete") ==>
          q.path.Some? && q.path.value !in after && SameBut(before, after, {q.path.value}))
    && (q.action in {Some("files.rename"), Some("files.move")} ==>
          && q.source.Some? && q.destination.Some? && q.source.value in before
          && q.destination.value in after && after[q.destination.value] == before[q.source.value]
          && q.source.value !in after && SameBut(before, after, {q.source.value, q.destination.value}))
  }

  lemma ExecutedDoes(v: Files, q: Request)
    ensures Applicable(v, q) <==> Possible(v, q)
    ensures if Possible(v, q) then Does(v, Executed(v, q), q) else Executed(v, q) == v
  {
  }

  function NoData<E>(): Data<E> {
    Data(None, None, None)
  }

  function ResultOf(v: Files, q: Request): CapabilityResult<string> {
    if !Applicable(v, q) then CapabilityResult(false, NoData())
    else
      match q.action.value
      case "files.create" => CapabilityResult(true, Data(q.path, None, None))
      case "files.write" => CapabilityResult(true, Data(q.path, Some(v[q.path.value]), None))
      case "files.delete" => CapabilityResult(true, Data(q.path, Some(v[q.path.value]), None))
      case _ => CapabilityResult(true, Data(None, None, Some((q.source.value, q.destination.value))))
  }

  /** `rollback`, for an action and the data of its result; restoring a move fails, and changes
      nothing, if the destination is gone. */
  function RolledBack(v: Files, action: Option<string>, data: Data<string>): Files {
    if data == NoData() || action.None? then v
    else
      match action.value
      case "files.create" => if Given(data.path) then v - {data.path.value} else v
      case "files.write" =>
        if data.path.Some? && data.entry.Some? then v[data.path.value := data.entry.value] else v
      case "files.delete" =>
        if data.path.Some? && data.entry.Some? then v[data.path.value := data.entry.value] else v
      case "files.rename" => MovedBack(v, data.moved)
      case "files.move" => MovedBack(v, data.moved)
      case _ => v
  }

  /** Restoring raises if the file to take away is not there. */
  predicate RollbackRaises(v: Files, action: Option<string>, data: Data<string>) {
    && data != NoData() && action.Some?
    && match action.value
       case "files.create" => data.path.Some? && !(Given(data.path) && data.path.value in v)
       case "files.rename" => data.moved.Some? && data.moved.value.1 !in v
       case "files.move" => data.moved.Some? && data.moved.value.1 !in v
       case _ => false
  }

  function MovedBack(v: Files, moved: Option<(string, string)>): Files {
    if moved.Some? && moved.value.1 in v then Moved(v, moved.value.1, moved.value.0) else v
  }

  /** Rolling an action back right after it raises nothing and restores the files exactly; a failed
      action changed nothing and its rollback changes nothing. */
  lemma RollbackUndoes(v: Files, q: Request)
    ensures RolledBack(Executed(v, q), q.action, ResultOf(v, q).data) == v
    ensures !RollbackRaises(Executed(v, q), q.action, ResultOf(v, q).data)
    ensures !ResultOf(v, q).success ==> Executed(v, q) == v && forall w :: RolledBack(w, q.action, ResultOf(v, q).data) == w
  {
  }

  /** The files after each request of a run, from first to last. */
  function After(v: Files, requests: seq<Request>): Files {
    if requests == [] then v
    else
      var n := |requests| - 1;
      Executed(After(v, requests[..n]), requests[n])
  }

  /** The result that the `k`-th request of a run got. */
  function ResultAt(v: Files, requests: seq<Request>, k: nat): CapabilityResult<string>
    requires k < |requests|
  {
    ResultOf(After(v, requests[..k]), requests[k])
  }

  /** Rolling back the results of a run from the newest down to the `k`-th. */
  function RolledBackTo(w: Files, v: Files, requests: seq<Request>, k: nat): Files
    requires k <= |requests|
    decreases |requests| - k
  {
    if k == |requests| then w
    else RolledBack(RolledBackTo(w, v, requests, k + 1), requests[k].action, ResultAt(v, requests, k).data)
  }

  /** After any run of requests with any arguments, rolling the results back newest first restores
      every earlier state of the files exactly, down to the one before the run. */
  lemma {:induction false} RunRollsBack(v: Files, requests: seq<Request>, k: nat)
    requires k <= |requests|
    ensures RolledBackTo(After(v, requests), v, requests, k) == After(v, requests[..k])
    decreases |requests| - k
  {
    if k == |requests| {
      assert requests[..k] == requests;
    } else {
      RunRollsBack(v, requests, k + 1);
      assert requests[..k + 1][..k] == requests[..k];
      RollbackUndoes(After(v, requests[..k]), requests[k]);
    }
  }

  /** Rolling one result back twice in a row is the same as rolling it back once. */
  lemma RollbackTwice(v: Files, q: Request)
    ensures var data := ResultOf(v, q).data;
            RolledBack(RolledBack(Executed(v, q), q.action, data), q.action, data) == v
  {
  }

  // ----- the other order

  predicate OnlyWrites(requests: seq<Request>) {
    forall k :: 0 <= k < |requests| ==> requests[k].action == Some("files.write")
  }

  /** Rolling back the results of the first `k` requests of a run from the oldest on. */
  function RolledBackFrom(w: Files, v: Files, requests: seq<Request>, k: nat): Files
    requires k <= |requests|
  {
    if k == 0 then w
    else RolledBack(RolledBackFrom(w, v, requests, k - 1), requests[k - 1].action, ResultAt(v, requests, k - 1).data)
  }

  predicate Writes(v: Files, q: Request, path: string) {
    q.path == Some(path) && path != "" && path in v
  }

  /** The request at `k` is the newest of the first `n` that writes the path. */
  predicate NewestWrite(v: Files, requests: seq<Request>, n: nat, k: nat, path: string)
    requires n <= |requests|
  {
    k < n && Writes(v, requests[k], path) && forall j :: k < j < n ==> !Writes(v, requests[j], path)
  }

  lemma {:induction false} WritesKeepPaths(v: Files, requests: seq<Request>)
    requires OnlyWrites(requests)
    ensures After(v, requests).Keys == v.Keys
  {
    if requests != [] {
      WritesKeepPaths(v, requests[..|requests| - 1]);
    }
  }

  /** What a rollback oldest first leaves under a path: the content just before the newest write,
      if the path was written at all. */
  lemma {:induction false} OldestFirstLeaves(w: Files, v: Files, requests: seq<Request>, n: nat, path: string)
    requires OnlyWrites(requests) && n <= |requests| && w.Keys == v.Keys
    ensures var end := RolledBackFrom(w, v, requests, n);
            && end.Keys == v.Keys
            && (forall k: nat :: NewestWrite(v, requests, n, k, path) ==>
                  path in After(v, requests[..k]) && end[path] == After(v, requests[..k])[path])
            && ((forall k :: 0 <= k < n ==> !Writes(v, requests[k], path)) && path in v ==> end[path] == w[path])
  {
    if n > 0 {
      var k := n - 1;
      OldestFirstLeaves(w, v, requests, k, path);
      WritesKeepPaths(v, requests[..k]);
      forall j: nat | NewestWrite(v, requests, n, j, path) && j < k
        ensures NewestWrite(v, requests, k, j, path)
      {
      }
    }
  }

  /** A path that no request writes keeps its content. */
  lemma {:induction false} UnwrittenStays(v: Files, requests: seq<Request>, path: string)
    requires OnlyWrites(requests) && path in v
    requires forall k :: 0 <= k < |requests| ==> !Writes(v, requests[k], path)
    ensures path in After(v, requests) && After(v, requests)[path] == v[path]
  {
    WritesKeepPaths(v, requests);
    if requests != [] {
      UnwrittenStays(v, requests[..|requests| - 1], path);
      WritesKeepPaths(v, requests[..|requests| - 1]);
    }
  }

  lemma {:induction false} HasNewest(v: Files, requests: seq<Request>, n: nat, k: nat, path: string) returns (newest: nat)
    requires k < n <= |requests| && Writes(v, requests[k], path)
    ensures NewestWrite(v, requests, n, newest, path)
  {
    if Writes(v, requests[n - 1], path) {
      newest := n - 1;
    } else {
      newest := HasNewest(v, requests, n - 1, k, path);
    }
  }

  /** Rolling a run of writes back oldest first restores the files if and only if each path that
      was written had its first content again just before its newest write. */
  lemma OldestFirstExactly(v: Files, requests: seq<Request>)
    requires OnlyWrites(requests)
    ensures RolledBackFrom(After(v, requests), v, requests, |requests|) == v <==>
              forall k: nat, path :: NewestWrite(v, requests, |requests|, k, path) ==>
                path in After(v, requests[..k]) && After(v, requests[..k])[path] == v[path]
  {
    var n := |requests|;
    var end := RolledBackFrom(After(v, requests), v, requests, n);
    forall path
      ensures end.Keys == v.Keys
      ensures path in v ==>
                (end[path] == v[path] <==> forall k: nat :: NewestWrite(v, requests, n, k, path) ==>
                                             path in After(v, requests[..k]) && After(v, requests[..k])[path] == v[path])
    {
      OldestFirstAt(v, requests, path);
    }
  }

  lemma OldestFirstAt(v: Files, requests: seq<Request>, path: string)
    requires OnlyWrites(requests)
    ensures var n := |requests|;
            var end := RolledBackFrom(After(v, requests), v, requests, n);
            && end.Keys == v.Keys
            && (path in v ==>
                  (end[path] == v[path] <==> forall k: nat :: NewestWrite(v, requests, n, k, path) ==>
                                               path in After(v, requests[..k]) && After(v, requests[..k])[path] == v[path]))
  {
    var n := |requests|;
    WritesKeepPaths(v, requests);
    OldestFirstLeaves(After(v, requests), v, requests, n, path);
    if k: nat :| k < n && Writes(v, requests[k], path) {
      var newest := HasNewest(v, requests, n, k, path);
    } else if path in v {
      UnwrittenStays(v, requests, path);
    }
  }

  /** Two writes to one file, rolled back oldest first, leave what the first one wrote; so the file
      is restored if and only if that write changed nothing. */
  lemma OldestFirstFails(v: Files, path: string, a: string, b: string)
    requires path in v && path != ""
    ensures var requests := [WriteOf(path, a), WriteOf(path, b)];
            var end := RolledBackFrom(After(v, requests), v, requests, 2);
            end == v[path := a] && (end == v <==> a == v[path])
  {
    var requests := [WriteOf(path, a), WriteOf(path, b)];
    assert requests[..1] == [WriteOf(path, a)] && requests[..1][..0] == [] && requests[..0] == [];
    assert After(v, requests[..1]) == v[path := a];
    assert NewestWrite(v, requests, 2, 1, path);
    WritesKeepPaths(v, requests);
    OldestFirstLeaves(After(v, requests), v, requests, 2, path);
    forall p | p in v && p != path
      ensures RolledBackFrom(After(v, requests), v, requests, 2)[p] == v[p]
    {
      OldestFirstLeaves(After(v, requests), v, requests, 2, p);
      UnwrittenStays(v, requests, p);
    }
    assert RolledBackFrom(After(v, requests), v, requests, 2) == v[path := a];
    assert v[path := a] == v <==> a == v[path];
  }

  function WriteOf(path: string, content: string): Request {
    Request(Some("files.write"), Some(path), Some(content), None, None)
  }

  // ----- the bridge

  /** The dictionary that the bridge keeps for one file; it is changed in place by a write. */
  class Entry {
    var content: string

    constructor (content: string)
      ensures this.content == content
    {
      this.content := content;
    }
  }

  class MockFileBridge {
    var fs: map<string, Entry>

    constructor ()
      ensures fs == map[] && Valid()
    {
      fs := map[];
    }

    /** No two paths share an entry. */
    ghost predicate Valid()
      reads this
    {
      forall p, q :: p in fs && q in fs && p != q ==> fs[p] != fs[q]
    }

    ghost function Contents(): Files
      reads this, fs.Values
    {
      map p | p in fs :: fs[p].content
    }

    /** The write actions of `execute`; `None` stands for the error that is raised. */
    method Execute(q: Request) returns (r: Option<Data<Entry>>)
      modifies this, fs.Values
      ensures old(Valid()) ==> Valid()
      ensures old(Valid()) || q.action != Some("files.write") ==> Contents() == Executed(old(Contents()), q)
      ensures r.Some? <==> Possible(old(Contents()), q)
      ensures r.Some? && (old(Valid()) || q.action != Some("files.write")) ==> Does(old(Contents()), Contents(), q)
      ensures r.None? ==> Contents() == old(Contents())
      ensures fresh(fs.Values - old(fs.Values))
      ensures r.Some? <==> Applicable(old(Contents()), q)
      ensures r.Some? ==> DataView(r.value) == ResultOf(old(Contents()), q).data
      ensures r.Some? && r.value.entry.Some? ==> fresh(r.value.entry.value) || r.value.entry.value in old(fs.Values)
      ensures old(Valid()) && r.Some? && r.value.entry.Some? ==> r.value.entry.value !in fs.Values
    {
      ExecutedDoes(Contents(), q);
      if q.action.None? {
        return None;
      }
      match q.action.value
      case "files.create" =>
        r := Create(q);
      case "files.write" =>
        r := Write(q);
      case "files.rename" =>
        r := Move(q);
      case "files.move" =>
        r := Move(q);
      case "files.delete" =>
        r := Delete(q);
      case _ =>
        r := None;
    }

    method Create(q: Request) returns (r: Option<Data<Entry>>)
      requires q.action == Some("files.create")
      modifies this
      ensures old(Valid()) ==> Valid()
      ensures Contents() == Executed(old(Contents()), q)
      ensures fresh(fs.Values - old(fs.Values))
      ensures r.Some? <==> Applicable(old(Contents()), q)
      ensures r.Some? ==> r.value.entry.None? && DataView(r.value) == ResultOf(old(Contents()), q).data
      ensures r.Some? <==> Possible(old(Contents()), q)
      ensures r.Some? ==> Does(old(Contents()), Contents(), q)
    {
      ExecutedDoes(Contents(), q);
      if !Given(q.path) || q.path.value in fs {
        return None;
      }
      var entry := new Entry(ContentOf(q));
      fs := fs[q.path.value := entry];
      return Some(Data(q.path, None, None));
    }

    /** The entry is copied for the result and then changed in place, under every path that has it. */
    method Write(q: Request) returns (r: Option<Data<Entry>>)
      requires q.action == Some("files.write")
      modifies fs.Values
      ensures fs == old(fs)
      ensures r.Some? <==> Applicable(old(Contents()), q)
      ensures Contents().Keys == old(Contents()).Keys
      ensures forall p :: p in fs ==>
                Contents()[p] == if r.Some? && fs[p] == fs[q.path.value] then ContentOf(q) else old(Contents())[p]
      ensures old(Valid()) ==> Valid() && Contents() == Executed(old(Contents()), q)
      ensures r.Some? ==> DataView(r.value) == ResultOf(old(Contents()), q).data
      ensures r.Some? ==> r.value.entry.Some? && fresh(r.value.entry.value)
      ensures r.Some? <==> Possible(old(Contents()), q)
      ensures old(Valid()) && r.Some? ==> Does(old(Contents()), Contents(), q)
    {
      ExecutedDoes(Contents(), q);
      if !Given(q.path) || q.path.value !in fs {
        return None;
      }
      var entry := fs[q.path.value];
      var preState := new Entry(entry.content);
      entry.content := ContentOf(q);
      return Some(Data(q.path, Some(preState), None));
    }

    /** Renaming and moving: the entry changes its path. */
    method Move(q: Request) returns (r: Option<Data<Entry>>)
      requires q.action.Some? && IsMove(q.action.value)
      modifies this
      ensures old(Valid()) ==> Valid()
      ensures Contents() == Executed(old(Contents()), q)
      ensures fs.Values <= old(fs.Values)
      ensures r.Some? <==> Applicable(old(Contents()), q)
      ensures r.Some? ==> r.value.entry.None? && DataView(r.value) == ResultOf(old(Contents()), q).data
      ensures r.Some? <==> Possible(old(Contents()), q)
      ensures r.Some? ==> Does(old(Contents()), Contents(), q)
    {
      ExecutedDoes(Contents(), q);
      if !Given(q.source) || !Given(q.destination) || q.source.value !in fs || q.destination.value in fs {
        return None;
      }
      var entry := fs[q.source.value];
      fs := (fs - {q.source.value})[q.destination.value := entry];
      return Some(Data(None, None, Some((q.source.value, q.destination.value))));
    }

    /** The entry itself goes into the result. */
    method Delete(q: Request) returns (r: Option<Data<Entry>>)
      requires q.action == Some("files.delete")
      modifies this
      ensures old(Valid()) ==> Valid()
      ensures Contents() == Executed(old(Contents()), q)
      ensures fs.Values <= old(fs.Values)
      ensures r.Some? <==> Applicable(old(Contents()), q)
      ensures r.Some? ==> DataView(r.value) == ResultOf(old(Contents()), q).data
      ensures r.Some? ==> r.value.entry.Some? && r.value.entry.value in old(fs.Values)
      ensures old(Valid()) && r.Some? ==> r.value.entry.value !in fs.Values
      ensures r.Some? <==> Possible(old(Contents()), q)
      ensures r.Some? ==> Does(old(Contents()), Contents(), q)
    {
      ExecutedDoes(Contents(), q);
      if !Given(q.path) || q.path.value !in fs {
        return None;
      }
      var preState := fs[q.path.value];
      fs := fs - {q.path.value};
      return Some(Data(q.path, Some(preState), None));
    }

    /** "files.restore_write" and "files.restore_delete"; paths come to share the entry exactly when
        another path has it already. */
    method Restore(path: string, preState: Entry)
      modifies this
      ensures Contents() == old(Contents())[path := preState.content]
      ensures old(Valid()) ==> (Valid() <==> forall p :: p in old(fs) && old(fs)[p] == preState ==> p == path)
      ensures fs.Values <= old(fs.Values) + {preState}
    {
      fs := fs[path := preState];
      assert fs[path] == preState;
      assert forall p :: p in old(fs) && p != path ==> p in fs && fs[p] == old(fs)[p];
    }

    /** "files.restore_rename" and "files.restore_move", which raise if the destination is gone. */
    method RestoreMove(source: string, destination: string) returns (raised: bool)
      modifies this
      ensures old(Valid()) ==> Valid()
      ensures Contents() == MovedBack(old(Contents()), Some((source, destination)))
      ensures fs.Values <= old(fs.Values)
      ensures raised <==> destination !in old(fs)
    {
      if destination !in fs {
        return true;
      }
      var entry := fs[destination];
      fs := (fs - {destination})[source := entry];
      return false;
    }
  }

  ghost function DataView(data: Data<Entry>): Data<string>
    reads if data.entry.Some? then {data.entry.value} else {}
  {
    Data(data.path, if data.entry.Some? then Some(data.entry.value.content) else None, data.moved)
  }

  ghost predicate FiledOnlyUnder(fs: map<string, Entry>, entry: Entry, path: Option<string>) {
    forall p :: p in fs && fs[p] == entry ==> path == Some(p)
  }

  // ----- the capability

  class FilesWriteCapability {
    const bridge: MockFileBridge

    constructor (bridge: MockFileBridge)
      ensures this.bridge == bridge
    {
      this.bridge := bridge;
    }

    predicate SupportsRollback(q: Request) {
      q.action.Some? && q.action.value in WRITE_ACTIONS
    }

    /** Executing never raises: an action that is not supported or fails gives a result without
        data.  Every action that succeeds supports rollback. */
    method ExecuteAction(q: Request) returns (r: CapabilityResult<Entry>)
      modifies bridge, bridge.fs.Values
      ensures old(bridge.Valid()) ==> bridge.Valid()
      ensures old(bridge.Valid()) || q.action != Some("files.write") ==>
                bridge.Contents() == Executed(old(bridge.Contents()), q)
      ensures fresh(bridge.fs.Values - old(bridge.fs.Values))
      ensures CapabilityResult(r.success, DataView(r.data)) == ResultOf(old(bridge.Contents()), q)
      ensures r.data.entry.Some? ==> fresh(r.data.entry.value) || r.data.entry.value in old(bridge.fs.Values)
      ensures old(bridge.Valid()) && r.data.entry.Some? ==> r.data.entry.value !in bridge.fs.Values
      ensures r.success ==> SupportsRollback(q)
      ensures r.success <==> Possible(old(bridge.Contents()), q)
      ensures r.success && (old(bridge.Valid()) || q.action != Some("files.write")) ==>
                Does(old(bridge.Contents()), bridge.Contents(), q)
    {
      if q.action.Some? && q.action.value !in WRITE_ACTIONS && q.action.value != "default" {
        return CapabilityResult(false, NoData());
      }
      var data := bridge.Execute(q);
      if data.None? {
        return CapabilityResult(false, NoData());
      }
      return CapabilityResult(true, data.value);
    }

    /** Any result may be rolled back, at any time and again; no two paths come to share an entry
        unless a path other than the result's has its entry already. */
    method Rollback(action: Option<string>, data: Data<Entry>) returns (raised: bool)
      modifies bridge
      ensures bridge.Contents() == RolledBack(old(bridge.Contents()), action, old(DataView(data)))
      ensures old(bridge.Valid()) && (data.entry.Some? ==> FiledOnlyUnder(old(bridge.fs), data.entry.value, data.path)) ==>
                bridge.Valid()
      ensures raised <==> RollbackRaises(old(bridge.Contents()), action, old(DataView(data)))
      ensures bridge.fs.Values <= old(bridge.fs.Values) + if data.entry.Some? then {data.entry.value} else {}
    {
      raised := false;
      if data == NoData() || action.None? {
        return;
      }
      match action.value
      case "files.create" =>
        if data.path.Some? {
          var deleted := bridge.Delete(Request(Some("files.delete"), data.path, None, None, None));
          raised := deleted.None?;
        }
      case "files.write" =>
        if data.path.Some? && data.entry.Some? {
          bridge.Restore(data.path.value, data.entry.value);
        }
      case "files.rename" =>
        if data.moved.Some? {
          raised := bridge.RestoreMove(data.moved.value.0, data.moved.value.1);
        }
      case "files.move" =>
        if data.moved.Some? {
          raised := bridge.RestoreMove(data.moved.value.0, data.moved.value.1);
        }
      case "files.delete" =>
        if data.path.Some? && data.entry.Some? {
          bridge.Restore(data.path.value, data.entry.value);
        }
      case _ =>
    }

    /** Any run of requests, rolled back newest first, leaves the contents as they were, although
        results share entries with the bridge and writes change entries in place. */
    method RunAndRollBack(requests: seq<Request>) returns (raised: bool)
      requires bridge.Valid()
      modifies bridge, bridge.fs.Values
      ensures bridge.Valid() && bridge.Contents() == old(bridge.Contents()) && !raised
      ensures fresh(bridge.fs.Values - old(bridge.fs.Values))
      decreases |requests|
    {
      if requests == [] {
        return false;
      }
      var r := ExecuteAction(requests[0]);
      var later := RunAndRollBack(requests[1..]);
      RollbackUndoes(old(bridge.Contents()), requests[0]);
      var own := Rollback(requests[0].action, r.data);
      return later || own;
    }
  }
}
