/** In which order the tasks of concurrent submissions are dispatched. */
module WorkflowOrder {
  import opened Wrappers
  import opened Sorting
  import opened WorkflowQueue
  import opened WorkflowSubmit
  import opened WorkflowTheorems

  ghost predicate Ascending(xs: seq<nat>) {
    forall i, j :: 0 <= i < j < |xs| ==> xs[i] < xs[j]
  }

  /** The event dispatches the task at `pos`. */
  ghost predicate Dispatches(s: State, e: Event, pos: nat) {
    e.Resume? && e.ok && HoldsTask(s, e.id, pos)
  }

  /** Some submission has taken a task before the one at `q` and is still announcing it. */
  ghost predicate Overtakes(s: State, q: nat) {
    exists id: nat, p: nat :: HoldsTask(s, id, p) && p < q
  }

  lemma DispatchedAfter(s: State, e: Event)
    requires Enabled(s, e)
    ensures forall pos :: Dispatches(s, e, pos) ==> Apply(s, e).dispatched == s.dispatched + [pos]
    ensures (forall pos :: !Dispatches(s, e, pos)) ==> Apply(s, e).dispatched == s.dispatched
    ensures s.dropped <= Apply(s, e).dropped && |s.dequeued| <= |Apply(s, e).dequeued|
  {
    if e.Resume? && e.ok && s.submissions[e.id].pc.AnnouncingTask? {
      assert Dispatches(s, e, s.submissions[e.id].pc.pos);
    }
  }

  // ----- what was so earlier in a run

  /** Dispatches, drops and dequeues are never taken back. */
  lemma {:induction false} HistoryGrows(events: seq<Event>, n: nat)
    requires n <= |events| && After(events).Some?
    ensures After(events[..n]).Some?
    ensures After(events[..n]).value.dispatched <= After(events).value.dispatched
    ensures After(events[..n]).value.dropped <= After(events).value.dropped
    ensures |After(events[..n]).value.dequeued| <= |After(events).value.dequeued|
    decreases |events|
  {
    if n == |events| {
      assert events[..n] == events;
    } else {
      var last := |events| - 1;
      HistoryGrows(events[..last], n);
      assert events[..last][..n] == events[..n];
      DispatchedAfter(After(events[..last]).value, events[last]);
    }
  }

  /** Every dispatch happened at some event of the run. */
  lemma {:induction false} WhenDispatched(events: seq<Event>, i: nat) returns (n: nat)
    requires After(events).Some? && i < |After(events).value.dispatched|
    ensures n < |events| && After(events[..n]).Some? && |After(events[..n]).value.dispatched| == i
    ensures Dispatches(After(events[..n]).value, events[n], After(events).value.dispatched[i])
    decreases |events|
  {
    assert events != [];
    var last := |events| - 1;
    var s := After(events[..last]).value;
    DispatchedAfter(s, events[last]);
    if i < |s.dispatched| {
      n := WhenDispatched(events[..last], i);
      assert events[..last][..n] == events[..n];
    } else {
      n := last;
    }
  }

  /** A task dequeued by the `n`-th event, and not dispatched by then, is still held if it is not
      dropped in the end. */
  lemma StillHeld(events: seq<Event>, n: nat, p: nat)
    requires n <= |events| && After(events).Some? && After(events[..n]).Some?
    requires p < |After(events[..n]).value.dequeued|
    requires p !in After(events[..n]).value.dispatched && p !in After(events).value.dropped
    ensures exists id: nat :: HoldsTask(After(events[..n]).value, id, p)
  {
    HistoryGrows(events, n);
    RunInv(events[..n]);
  }

  lemma DispatchesOnce(events: seq<Event>, i: nat)
    requires After(events).Some? && i < |After(events).value.dispatched|
    ensures Distinct(After(events).value.dispatched)
    ensures After(events).value.dispatched[i] !in After(events).value.dropped
  {
    RunInv(events);
    assert After(events).value.dispatched[i] in After(events).value.dispatched;
  }

  lemma DispatchedIsKnown(events: seq<Event>, n: nat, q: nat)
    requires n < |events| && After(events[..n]).Some? && Dispatches(After(events[..n]).value, events[n], q)
    ensures q < |After(events[..n]).value.dequeued|
  {
    RunInv(events[..n]);
  }

  // ----- what a dispatch means for the rest of the run

  /** No task before the one at `q` is dispatched after the events `done`. */
  ghost predicate NoneBefore(done: seq<Event>, more: seq<Event>, q: nat) {
    After(done).Some? && After(done + more).Some? ==>
      forall i :: |After(done).value.dispatched| <= i < |After(done + more).value.dispatched| ==>
        q < After(done + more).value.dispatched[i]
  }

  /** After a dispatch only later tasks are dispatched, however the run goes on, if and only if it
      overtakes nobody: no other submission still announces an earlier task. */
  lemma DispatchKeepsOrder(events: seq<Event>, e: Event, q: nat)
    requires After(events).Some? && Enabled(After(events).value, e) && Dispatches(After(events).value, e, q)
    ensures (forall more :: NoneBefore(events + [e], more, q)) <==> !Overtakes(After(events).value, q)
  {
    var s := After(events).value;
    var done := events + [e];
    assert done[..|events|] == events;
    DispatchedAfter(s, e);
    if Overtakes(s, q) {
      OvertakenComes(events, e, q);
    } else {
      forall more
        ensures NoneBefore(done, more, q)
      {
        if After(done + more).Some? {
          OnlyLaterOnes(events, e, q, more);
        }
      }
    }
  }

  lemma OvertakenComes(events: seq<Event>, e: Event, q: nat)
    requires After(events).Some? && Enabled(After(events).value, e) && Dispatches(After(events).value, e, q)
    requires Overtakes(After(events).value, q)
    ensures exists more :: !NoneBefore(events + [e], more, q)
  {
    var s := After(events).value;
    var id: nat, p: nat :| HoldsTask(s, id, p) && p < q;
    OneMore(events, e);
    DispatchedAfter(s, e);
    assert HoldsTask(Apply(s, e), id, p);
    DispatchedNext(events + [e], Resume(id, true), p);
    assert !NoneBefore(events + [e], [Resume(id, true)], q);
  }

  lemma DispatchedNext(done: seq<Event>, e: Event, p: nat)
    requires After(done).Some? && Enabled(After(done).value, e) && Dispatches(After(done).value, e, p)
    ensures After(done + [e]).Some?
    ensures After(done + [e]).value.dispatched == After(done).value.dispatched + [p]
    ensures After(done + [e]).value.dispatched[|After(done).value.dispatched|] == p
  {
    OneMore(done, e);
    DispatchedAfter(After(done).value, e);
  }

  lemma OnlyLaterOnes(events: seq<Event>, e: Event, q: nat, more: seq<Event>)
    requires After(events).Some? && Enabled(After(events).value, e) && Dispatches(After(events).value, e, q)
    requires !Overtakes(After(events).value, q) && After(events + [e] + more).Some?
    ensures NoneBefore(events + [e], more, q)
  {
    var d := After(events + [e] + more).value.dispatched;
    DispatchedNext(events, e, q);
    forall i | |After(events + [e]).value.dispatched| <= i < |d|
      ensures q < d[i]
    {
      EarlierWasHeld(events, e, q, more, i);
    }
  }

  /** A task before the one at `q` that is dispatched after it was held when that one was. */
  lemma EarlierWasHeld(events: seq<Event>, e: Event, q: nat, more: seq<Event>, i: nat)
    requires After(events).Some? && Enabled(After(events).value, e) && Dispatches(After(events).value, e, q)
    requires After(events + [e] + more).Some?
    requires |After(events).value.dispatched| < i < |After(events + [e] + more).value.dispatched|
    ensures After(events + [e] + more).value.dispatched[i] > q || Overtakes(After(events).value, q)
  {
    var s, run := After(events).value, events + [e] + more;
    var d := After(run).value.dispatched;
    assert run[..|events|] == events && run[..|events| + 1] == events + [e];
    DispatchedNext(events, e, q);
    HistoryGrows(run, |events| + 1);
    DispatchesOnce(run, i);
    assert d[|s.dispatched|] == q;
    DispatchedIsKnown(run, |events|, q);
    LaterIsNew(s.dispatched, d, i);
    if d[i] < q {
      StillHeld(run, |events|, d[i]);
    }
  }

  lemma LaterIsNew(earlier: seq<nat>, all: seq<nat>, i: nat)
    requires earlier <= all && Distinct(all) && |earlier| <= i < |all|
    ensures all[i] !in earlier
  {
    forall k | 0 <= k < |earlier|
      ensures earlier[k] != all[i]
    {
      assert all[k] == earlier[k];
    }
  }

  // ----- dispatch order of a whole run

  /** The event at `n` dispatches a task while an earlier one, at `p`, is still announced. */
  ghost predicate PassedOver(events: seq<Event>, n: nat, p: nat) {
    && n < |events| && After(events[..n]).Some?
    && exists id: nat, q: nat ::
         HoldsTask(After(events[..n]).value, id, p) && Dispatches(After(events[..n]).value, events[n], q) && p < q
  }

  /** A run dispatches in first-in-first-out order if and only if no task that was passed over is
      dispatched later. */
  lemma DispatchOrder(events: seq<Event>)
    requires After(events).Some?
    ensures Ascending(After(events).value.dispatched) <==>
              forall n, p :: PassedOver(events, n, p) ==> p !in After(events).value.dispatched
  {
    var d := After(events).value.dispatched;
    if n: nat, p: nat :| PassedOver(events, n, p) && p in d {
      PassedOverComesLate(events, n, p);
    }
    if i, j :| 0 <= i < j < |d| && d[i] >= d[j] {
      LateWasPassedOver(events, i, j);
    }
  }

  lemma PassedOverComesLate(events: seq<Event>, n: nat, p: nat)
    requires After(events).Some? && PassedOver(events, n, p) && p in After(events).value.dispatched
    ensures !Ascending(After(events).value.dispatched)
  {
    var s, d := After(events[..n]).value, After(events).value.dispatched;
    var id: nat, q: nat :| HoldsTask(s, id, p) && Dispatches(s, events[n], q) && p < q;
    RunInv(events[..n]);
    StartIsRun(events, n + 1);
    NextState(events, n);
    DispatchedAfter(s, events[n]);
    HistoryGrows(events, n + 1);
    assert s.dispatched + [q] <= d;
    assert d[|s.dispatched|] == q;
    assert forall k :: 0 <= k < |s.dispatched| ==> d[k] == s.dispatched[k] != p;
    var j :| 0 <= j < |d| && d[j] == p;
  }

  lemma LateWasPassedOver(events: seq<Event>, i: nat, j: nat)
    requires After(events).Some? && i < j < |After(events).value.dispatched|
    requires After(events).value.dispatched[i] >= After(events).value.dispatched[j]
    ensures exists n: nat :: PassedOver(events, n, After(events).value.dispatched[j])
  {
    var d := After(events).value.dispatched;
    var q, p := d[i], d[j];
    DispatchesOnce(events, j);
    var n := WhenDispatched(events, i);
    HistoryGrows(events, n);
    DispatchedIsKnown(events, n, q);
    LaterIsNew(After(events[..n]).value.dispatched, d, j);
    StillHeld(events, n, p);
    assert PassedOver(events, n, p);
  }

  /** The event at `n` dispatches a task while an earlier one is still announced. */
  ghost predicate OvertakesAt(events: seq<Event>, n: nat) {
    exists p :: PassedOver(events, n, p)
  }

  /** When all submissions are over and none gave up between taking its task and dispatching it,
      dispatches were in first-in-first-out order if and only if no event overtook anybody. */
  lemma DispatchOrderInTheEnd(events: seq<Event>)
    requires After(events).Some? && AllDone(After(events).value) && After(events).value.dropped == {}
    ensures Ascending(After(events).value.dispatched) <==> forall n :: !OvertakesAt(events, n)
  {
    DispatchOrder(events);
    var s := After(events).value;
    forall n: nat, p: nat | PassedOver(events, n, p)
      ensures p in s.dispatched
    {
      HistoryGrows(events, n);
      RunInv(events[..n]);
      RunInv(events);
      forall id: nat
        ensures !HoldsTask(s, id, p)
      {
        assert !InProgress(s, id);
      }
    }
    assert forall n: nat, p: nat :: PassedOver(events, n, p) ==> OvertakesAt(events, n);
    if n: nat :| OvertakesAt(events, n) {
      var p: nat :| PassedOver(events, n, p);
    }
  }

  /** At most one submission at a time has taken a task without having dispatched it. */
  ghost predicate OneAtATime(s: State) {
    forall id: nat, other: nat, p: nat, q: nat :: HoldsTask(s, id, p) && HoldsTask(s, other, q) ==> id == other
  }

  /** If no submission takes a task while another is still announcing its own, dispatches are in
      first-in-first-out order. */
  lemma QuietRunsKeepOrder(events: seq<Event>)
    requires After(events).Some?
    requires forall n :: 0 <= n <= |events| ==> After(events[..n]).Some? && OneAtATime(After(events[..n]).value)
    ensures Ascending(After(events).value.dispatched)
    ensures forall id: nat, pos: nat, q: nat ::
              HoldsTask(After(events).value, id, pos) && q in After(events).value.dispatched ==> q < pos
  {
    DispatchOrder(events);
    forall n: nat, p: nat
      ensures !PassedOver(events, n, p)
    {
      assert n < |events| ==> OneAtATime(After(events[..n]).value);
    }
    forall id: nat, pos: nat, q: nat | HoldsTask(After(events).value, id, pos) && q in After(events).value.dispatched
      ensures q < pos
    {
      HeldWasPassedOver(events, id, pos, q);
    }
  }

  /** A held task, and a dispatched one after it: the first was passed over. */
  lemma HeldWasPassedOver(events: seq<Event>, id: nat, pos: nat, q: nat)
    requires After(events).Some? && HoldsTask(After(events).value, id, pos) && q in After(events).value.dispatched
    ensures q < pos || exists n: nat :: PassedOver(events, n, pos)
  {
    HeldIsOpen(events, id, pos);
    var i :| 0 <= i < |After(events).value.dispatched| && After(events).value.dispatched[i] == q;
    var n := WhenDispatched(events, i);
    if pos <= q {
      DispatchedIsKnown(events, n, q);
      StartIsOpen(events, n, pos);
      StillHeld(events, n, pos);
      assert pos != q ==> PassedOver(events, n, pos);
    }
  }

  lemma HeldIsOpen(events: seq<Event>, id: nat, pos: nat)
    requires After(events).Some? && HoldsTask(After(events).value, id, pos)
    ensures pos !in After(events).value.dispatched && pos !in After(events).value.dropped
  {
    RunInv(events);
  }

  lemma StartIsOpen(events: seq<Event>, n: nat, pos: nat)
    requires n <= |events| && After(events).Some? && pos !in After(events).value.dispatched
    ensures After(events[..n]).Some? && pos !in After(events[..n]).value.dispatched
  {
    HistoryGrows(events, n);
  }
}
