/** What holds of every interleaving of concurrent workflow submissions. */
module WorkflowTheorems {
  import opened Wrappers
  import opened Sorting
  import opened WorkflowQueue
  import opened WorkflowSubmit

  // ----- runs

  /** Every part of a run from its start is a run. */
  lemma {:induction false} StartIsRun(events: seq<Event>, n: nat)
    requires n <= |events| && After(events).Some?
    ensures After(events[..n]).Some?
    decreases |events|
  {
    if n == |events| {
      assert events[..n] == events;
    } else {
      var last := |events| - 1;
      StartIsRun(events[..last], n);
      assert events[..last][..n] == events[..n];
    }
  }

  lemma NextState(events: seq<Event>, n: nat)
    requires n < |events| && After(events[..n]).Some? && Enabled(After(events[..n]).value, events[n])
    ensures After(events[..n + 1]) == Some(Apply(After(events[..n]).value, events[n]))
  {
    assert events[..n + 1][..n] == events[..n];
  }

  lemma OneMore(events: seq<Event>, e: Event)
    requires After(events).Some? && Enabled(After(events).value, e)
    ensures After(events + [e]) == Some(Apply(After(events).value, e))
  {
    assert (events + [e])[..|events|] == events;
  }

  // ----- conservation

  /** What was enqueued is what was dequeued, in the same order, followed by what is queued, and a
      submission that has just enqueued never finds the queue empty. */
  lemma QueueConserves(events: seq<Event>)
    requires After(events).Some?
    ensures var s := After(events).value;
            s.enqueued == s.dequeued + s.queue && !s.foundEmpty
  {
    RunInv(events);
  }

  /** No task is dispatched twice, and none that was dropped is dispatched. */
  lemma DispatchedAtMostOnce(events: seq<Event>, i: nat, j: nat)
    requires After(events).Some? && i < j < |After(events).value.dispatched|
    ensures var s := After(events).value;
            && s.dispatched[i] != s.dispatched[j]
            && s.dispatched[i] < |s.dequeued| <= |s.enqueued|
            && s.dequeued[s.dispatched[i]] == s.enqueued[s.dispatched[i]]
            && s.dispatched[i] !in s.dropped
  {
    RunInv(events);
    var s := After(events).value;
    assert s.dispatched[i] in s.dispatched;
  }

  ghost predicate AllDone(s: State) {
    forall id :: !InProgress(s, id)
  }

  /** When every submission is over, the queue holds exactly one task for each submission that
      gave up before it dequeued, and every other task was dispatched once or dropped, not both. */
  lemma EveryTaskAccountedFor(events: seq<Event>, pos: nat)
    requires After(events).Some? && AllDone(After(events).value)
    requires pos < |After(events).value.enqueued|
    ensures var s := After(events).value;
            && |s.queue| == s.stranded
            && (pos in s.dispatched || pos in s.dropped || |s.enqueued| - pos <= s.stranded)
            && (pos in s.dispatched ==> multiset(s.dispatched)[pos] == 1 && pos !in s.dropped)
  {
    RunInv(events);
    var s := After(events).value;
    forall id
      ensures id !in Waiting(s) && !HoldsTask(s, id, pos)
    {
      assert !InProgress(s, id);
    }
    assert Waiting(s) == {};
    DistinctByMultiset(s.dispatched);
    assert pos in s.dispatched ==> pos in multiset(s.dispatched);
  }
}
