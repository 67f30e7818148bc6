/** The runs of concurrent submissions that an event loop allows: a submission keeps control until it is
    over or comes to an await that suspends.  Which awaits do depends on the event bus (an announcement
    with a subscriber does, one without does not) and on the executor. */
module WorkflowLoop {
  import opened Wrappers
  import opened Sorting
  import opened WorkflowQueue
  import opened WorkflowSubmit
  import opened WorkflowTheorems
  import opened WorkflowOrder
  import opened WorkflowStatus

  /** The awaits of `submit`, in the order of the text. */
  datatype Stage = Queueing | Starting | Taking | Executing | TaskEnding | Ending | Failing

  function StageOf(pc: Pc): Option<Stage> {
    match pc
    case AnnouncingQueued => Some(Queueing)
    case AnnouncingStart => Some(Starting)
    case AnnouncingTask(_) => Some(Taking)
    case Dispatching(_) => Some(Executing)
    case AnnouncingTaskEnd(_) => Some(TaskEnding)
    case AnnouncingEnd(_) => Some(Ending)
    case AnnouncingFailure => Some(Failing)
    case Returned(_) => None
    case Gone => None
  }

  /** The submission is at an await that suspends. */
  predicate Pausing(suspends: set<Stage>, s: State, id: nat) {
    InProgress(s, id) && StageOf(s.submissions[id].pc).Some? && StageOf(s.submissions[id].pc).value in suspends
  }

  predicate LetsGo(suspends: set<Stage>, s: State, id: nat) {
    InProgress(s, id) ==> Pausing(suspends, s, id)
  }

  /** The submission that ran last has control, unless it has let go. */
  function Runner(events: seq<Event>): Option<nat> {
    if events == [] then None
    else
      var n := |events| - 1;
      match events[n]
      case Begin(id, _, _) => Some(id)
      case Resume(id, _) => Some(id)
      case _ => Runner(events[..n])
  }

  /** Anything but the running submission going on needs it to have let go. */
  predicate Allowed(suspends: set<Stage>, events: seq<Event>, s: State, e: Event) {
    && (Runner(events).Some? && !(e.Resume? && e.id == Runner(events).value) ==>
          LetsGo(suspends, s, Runner(events).value))
    && (e.Abandon? ==> Pausing(suspends, s, e.id))
  }

  predicate LoopRun(suspends: set<Stage>, events: seq<Event>) {
    if events == [] then true
    else
      var n := |events| - 1;
      && LoopRun(suspends, events[..n]) && After(events[..n]).Some?
      && Allowed(suspends, events[..n], After(events[..n]).value, events[n])
  }

  /** A run of the event loop and where it has come to. */
  predicate Going(suspends: set<Stage>, run: seq<Event>, s: State) {
    LoopRun(suspends, run) && After(run) == Some(s)
  }

  lemma GoesOn(suspends: set<Stage>, run: seq<Event>, s: State, e: Event)
    requires Going(suspends, run, s) && Enabled(s, e) && Allowed(suspends, run, s, e)
    ensures Going(suspends, run + [e], Apply(s, e))
    ensures Runner(run + [e]) == if e.Begin? then Some(e.id) else if e.Resume? then Some(e.id) else Runner(run)
  {
    assert (run + [e])[..|run|] == run;
  }

  // ----- submissions without control

  ghost predicate IdlePause(suspends: set<Stage>, events: seq<Event>, s: State) {
    forall id: nat :: InProgress(s, id) && Runner(events) != Some(id) ==> Pausing(suspends, s, id)
  }

  lemma IdleStep(suspends: set<Stage>, events: seq<Event>, s: State, e: Event, longer: seq<Event>)
    requires IdlePause(suspends, events, s) && Enabled(s, e) && Allowed(suspends, events, s, e)
    requires longer != [] && longer[..|longer| - 1] == events && longer[|longer| - 1] == e
    ensures IdlePause(suspends, longer, Apply(s, e))
  {
    var s' := Apply(s, e);
    forall id: nat | InProgress(s', id) && Runner(longer) != Some(id)
      ensures Pausing(suspends, s', id)
    {
      OtherStays(s, e, id);
    }
  }

  lemma OtherStays(s: State, e: Event, id: nat)
    requires Enabled(s, e) && InProgress(Apply(s, e), id) && !(e.Begin? && e.id == id) && !(e.Resume? && e.id == id)
    ensures InProgress(s, id) && Apply(s, e).submissions[id] == s.submissions[id]
  {
    if e.Resume? {
      ResumesOnly(s, e.id, e.ok);
    }
  }

  ghost predicate SameButAt(before: map<nat, Submission>, after: map<nat, Submission>, id: nat) {
    after.Keys == before.Keys && forall k :: k in before && k != id ==> after[k] == before[k]
  }

  lemma ResumesOnly(s: State, id: nat, ok: bool)
    requires id in s.submissions
    ensures SameButAt(s.submissions, ResumeSubmission(s, id, ok).submissions, id)
  {
    SetsOnly(s, id);
    FailsOnly(s, id);
    TakesOnly(s, id);
    var pc := s.submissions[id].pc;
    if pc.AnnouncingTask? {
      SetsOnly(s.(dispatched := s.dispatched + [pc.pos]), id);
    }
  }

  lemma SetsOnly(s: State, id: nat)
    requires id in s.submissions
    ensures forall pc :: SameButAt(s.submissions, SetPc(s, id, pc).submissions, id)
  {
  }

  lemma FailsOnly(s: State, id: nat)
    requires id in s.submissions
    ensures SameButAt(s.submissions, Fail(s, id).submissions, id)
  {
    assert Leave(s, id).submissions == s.submissions;
    SetsOnly(Leave(s, id), id);
  }

  lemma TakesOnly(s: State, id: nat)
    requires id in s.submissions
    ensures SameButAt(s.submissions, TakeNext(s, id).submissions, id)
  {
    var s1 := s.(statuses := s.statuses[s.submissions[id].workflowId := Running]);
    if s.queue == [] {
      FailsOnly(s1.(foundEmpty := true), id);
    } else {
      SetsOnly(s1.(queue := s.queue[1..], dequeued := s.dequeued + [s.queue[0]]), id);
    }
  }

  lemma {:induction false} RunIdle(suspends: set<Stage>, events: seq<Event>)
    requires LoopRun(suspends, events) && After(events).Some?
    ensures IdlePause(suspends, events, After(events).value)
  {
    if events != [] {
      var n := |events| - 1;
      RunIdle(suspends, events[..n]);
      IdleStep(suspends, events[..n], After(events[..n]).value, events[n], events);
    }
  }

  /** Whoever is not resumed by the next event pauses. */
  lemma OthersPause(suspends: set<Stage>, events: seq<Event>, e: Event, id: nat)
    requires LoopRun(suspends, events) && After(events).Some? && Allowed(suspends, events, After(events).value, e)
    requires InProgress(After(events).value, id) && !(e.Resume? && e.id == id)
    ensures Pausing(suspends, After(events).value, id)
  {
    RunIdle(suspends, events);
  }

  lemma {:induction false} LoopPrefix(suspends: set<Stage>, events: seq<Event>, n: nat)
    requires LoopRun(suspends, events) && n < |events|
    ensures LoopRun(suspends, events[..n]) && After(events[..n]).Some?
    ensures Allowed(suspends, events[..n], After(events[..n]).value, events[n])
    decreases |events|
  {
    var last := |events| - 1;
    if n < last {
      LoopPrefix(suspends, events[..last], n);
      assert events[..last][..n] == events[..n];
    }
  }

  // ----- dispatching out of order

  lemma PassedOverPauses(suspends: set<Stage>, events: seq<Event>, n: nat, p: nat)
    requires LoopRun(suspends, events) && PassedOver(events, n, p)
    ensures Taking in suspends
  {
    var s := After(events[..n]).value;
    var id: nat, q: nat :| HoldsTask(s, id, p) && Dispatches(s, events[n], q) && p < q;
    LoopPrefix(suspends, events, n);
    assert id != events[n].id;
    OthersPause(suspends, events[..n], events[n], id);
  }

  /** One submission, with this await, queue, and what has been dequeued. */
  predicate One(suspends: set<Stage>, run: seq<Event>, s: State, a: WorkflowTask, pc: Pc, queue: seq<WorkflowTask>,
                dequeued: seq<WorkflowTask>) {
    && Going(suspends, run, s) && Runner(run) == Some(0)
    && s.submissions == map[0 := Submission(a.workflowId, pc)]
    && s.queue == queue && s.dequeued == dequeued && s.dispatched == []
  }

  /** Submission 0 has taken its task and announces it; submission 1 is at this await. */
  predicate Two(suspends: set<Stage>, run: seq<Event>, s: State, a: WorkflowTask, b: WorkflowTask, pc: Pc,
                queue: seq<WorkflowTask>, dequeued: seq<WorkflowTask>, dispatched: seq<nat>) {
    && Going(suspends, run, s) && Runner(run) == Some(1)
    && s.submissions == map[0 := Submission(a.workflowId, AnnouncingTask(0)), 1 := Submission(b.workflowId, pc)]
    && s.queue == queue && s.dequeued == dequeued && s.dispatched == dispatched
  }

  lemma FirstBegins(suspends: set<Stage>, a: WorkflowTask) returns (run: seq<Event>, s: State)
    ensures One(suspends, run, s, a, AnnouncingQueued, [a], [])
  {
    var e := Begin(0, a.workflowId, Some(a));
    GoesOn(suspends, [], INITIAL, e);
    run, s := [] + [e], Apply(INITIAL, e);
  }

  lemma FirstResumes(suspends: set<Stage>, run: seq<Event>, s: State, a: WorkflowTask)
    requires One(suspends, run, s, a, AnnouncingQueued, [a], [])
    ensures One(suspends, run + [Resume(0, true)], Apply(s, Resume(0, true)), a, AnnouncingStart, [a], [])
  {
    GoesOn(suspends, run, s, Resume(0, true));
  }

  lemma FirstTakes(suspends: set<Stage>, run: seq<Event>, s: State, a: WorkflowTask)
    requires One(suspends, run, s, a, AnnouncingStart, [a], [])
    ensures One(suspends, run + [Resume(0, true)], Apply(s, Resume(0, true)), a, AnnouncingTask(0), [], [a])
  {
    GoesOn(suspends, run, s, Resume(0, true));
  }

  lemma SecondBegins(suspends: set<Stage>, run: seq<Event>, s: State, a: WorkflowTask, b: WorkflowTask)
    requires One(suspends, run, s, a, AnnouncingTask(0), [], [a]) && Taking in suspends
    ensures var e := Begin(1, b.workflowId, Some(b));
            Two(suspends, run + [e], Apply(s, e), a, b, AnnouncingQueued, [b], [a], [])
  {
    GoesOn(suspends, run, s, Begin(1, b.workflowId, Some(b)));
  }

  lemma SecondResumes(suspends: set<Stage>, run: seq<Event>, s: State, a: WorkflowTask, b: WorkflowTask)
    requires Two(suspends, run, s, a, b, AnnouncingQueued, [b], [a], [])
    ensures Two(suspends, run + [Resume(1, true)], Apply(s, Resume(1, true)), a, b, AnnouncingStart, [b], [a], [])
  {
    GoesOn(suspends, run, s, Resume(1, true));
  }

  lemma SecondTakes(suspends: set<Stage>, run: seq<Event>, s: State, a: WorkflowTask, b: WorkflowTask)
    requires Two(suspends, run, s, a, b, AnnouncingStart, [b], [a], [])
    ensures Two(suspends, run + [Resume(1, true)], Apply(s, Resume(1, true)), a, b, AnnouncingTask(1), [], [a, b], [])
  {
    GoesOn(suspends, run, s, Resume(1, true));
  }

  lemma SecondDispatches(suspends: set<Stage>, run: seq<Event>, s: State, a: WorkflowTask, b: WorkflowTask)
    requires Two(suspends, run, s, a, b, AnnouncingTask(1), [], [a, b], [])
    ensures Two(suspends, run + [Resume(1, true)], Apply(s, Resume(1, true)), a, b, Dispatching(1), [], [a, b], [1])
  {
    GoesOn(suspends, run, s, Resume(1, true));
  }

  /** After its dispatch the second submission can go on to its end without letting go. */
  lemma {:induction false} SecondReturns(suspends: set<Stage>, run: seq<Event>, s: State, a: WorkflowTask,
                                         b: WorkflowTask, pc: Pc, left: nat)
      returns (longer: seq<Event>, s': State)
    requires Two(suspends, run, s, a, b, pc, [], [a, b], [1])
    requires pc == match left
                   case 0 => Returned(true)
                   case 1 => AnnouncingEnd(1)
                   case 2 => AnnouncingTaskEnd(1)
                   case _ => Dispatching(1)
    requires left <= 3
    ensures Two(suspends, longer, s', a, b, Returned(true), [], [a, b], [1])
    decreases left
  {
    if left == 0 {
      longer, s' := run, s;
    } else {
      var e := Resume(1, true);
      GoesOn(suspends, run, s, e);
      longer, s' := SecondReturns(suspends, run + [e], Apply(s, e), a, b, Apply(s, e).submissions[1].pc, left - 1);
    }
  }

  lemma FirstDispatchesLast(suspends: set<Stage>, run: seq<Event>, s: State, a: WorkflowTask, b: WorkflowTask)
    requires Two(suspends, run, s, a, b, Returned(true), [], [a, b], [1])
    ensures Going(suspends, run + [Resume(0, true)], Apply(s, Resume(0, true)))
    ensures Apply(s, Resume(0, true)).dispatched == [1, 0]
    ensures Apply(s, Resume(0, true)).queue == [] && Apply(s, Resume(0, true)).dequeued == [a, b]
  {
    GoesOn(suspends, run, s, Resume(0, true));
  }

  lemma BothTake(suspends: set<Stage>, a: WorkflowTask, b: WorkflowTask) returns (run: seq<Event>, s: State)
    requires Taking in suspends
    ensures Two(suspends, run, s, a, b, AnnouncingStart, [b], [a], [])
  {
    var go0, go1, e := Resume(0, true), Resume(1, true), Begin(1, b.workflowId, Some(b));
    run, s := FirstBegins(suspends, a);
    FirstResumes(suspends, run, s, a);
    run, s := run + [go0], Apply(s, go0);
    FirstTakes(suspends, run, s, a);
    run, s := run + [go0], Apply(s, go0);
    SecondBegins(suspends, run, s, a, b);
    run, s := run + [e], Apply(s, e);
    SecondResumes(suspends, run, s, a, b);
    run, s := run + [go1], Apply(s, go1);
  }

  /** If announcing a task suspends, dispatches are not always in first-in-first-out order: of two
      submissions that have taken the tasks `a` and `b` in this order, the second may dispatch first. */
  lemma DispatchCanOvertake(suspends: set<Stage>, a: WorkflowTask, b: WorkflowTask)
    requires Taking in suspends
    ensures exists run, s ::
              && Going(suspends, run, s)
              && s.enqueued == s.dequeued == [a, b] && s.dispatched == [1, 0]
  {
    var go := Resume(1, true);
    var run, s := BothTake(suspends, a, b);
    SecondTakes(suspends, run, s, a, b);
    run, s := run + [go], Apply(s, go);
    SecondDispatches(suspends, run, s, a, b);
    run, s := run + [go], Apply(s, go);
    run, s := SecondReturns(suspends, run, s, a, b, Dispatching(1), 3);
    FirstDispatchesLast(suspends, run, s, a, b);
    RunInv(run + [Resume(0, true)]);
  }

  /** Under an event loop dispatches can be out of order if and only if announcing a task suspends. */
  lemma OvertakingExactly(suspends: set<Stage>)
    ensures (exists run, s :: Going(suspends, run, s) && !Ascending(s.dispatched)) <==> Taking in suspends
  {
    if run, s :| Going(suspends, run, s) && !Ascending(s.dispatched) {
      DispatchOrder(run);
      var n: nat, p: nat :| PassedOver(run, n, p) && p in s.dispatched;
      PassedOverPauses(suspends, run, n, p);
    }
    if Taking in suspends {
      var t := WorkflowTask("", "", "");
      DispatchCanOvertake(suspends, t, t);
      var run, s :| Going(suspends, run, s) && s.enqueued == s.dequeued == [t, t] && s.dispatched == [1, 0];
      assert s.dispatched[0] > s.dispatched[1];
    }
  }

  // ----- cancelling

  /** The only submission in the run is the first event, the workflow is cancelled, and in the end
      it is completed. */
  ghost predicate CompletesCancelled(run: seq<Event>, s: State, w: string) {
    && Cancel(w) in run && (forall i :: 0 <= i < |run| && run[i].Begin? ==> i == 0)
    && w in s.statuses && s.statuses[w] == Completed
  }

  /** What a submission comes to await, if nothing fails. */
  function PcAt(i: nat): Pc {
    match i
    case 0 => AnnouncingQueued
    case 1 => AnnouncingStart
    case 2 => AnnouncingTask(0)
    case 3 => Dispatching(0)
    case 4 => AnnouncingTaskEnd(0)
    case 5 => AnnouncingEnd(0)
    case _ => Returned(true)
  }

  ghost predicate Solo(suspends: set<Stage>, run: seq<Event>, s: State, w: string, task: WorkflowTask, i: nat) {
    && Going(suspends, run, s) && Runner(run) == Some(0) && i <= 6
    && (forall n :: 0 <= n < |run| && run[n].Begin? ==> n == 0)
    && s.submissions == map[0 := Submission(w, PcAt(i))] && w in s.statuses
    && (i < 2 ==> s.queue == [task] && s.dequeued == [])
    && (i == 6 ==> s.statuses[w] == Completed)
  }

  lemma SoloBegins(suspends: set<Stage>, w: string, task: WorkflowTask)
    ensures Solo(suspends, [Begin(0, w, Some(task))], Apply(INITIAL, Begin(0, w, Some(task))), w, task, 0)
  {
    GoesOn(suspends, [], INITIAL, Begin(0, w, Some(task)));
    assert [] + [Begin(0, w, Some(task))] == [Begin(0, w, Some(task))];
  }

  lemma SoloStep(suspends: set<Stage>, run: seq<Event>, s: State, w: string, task: WorkflowTask, i: nat)
    requires Solo(suspends, run, s, w, task, i) && i < 6
    ensures Solo(suspends, run + [Resume(0, true)], Apply(s, Resume(0, true)), w, task, i + 1)
  {
    GoesOn(suspends, run, s, Resume(0, true));
  }

  lemma {:induction false} SoloTo(suspends: set<Stage>, run: seq<Event>, s: State, w: string, task: WorkflowTask,
                                  i: nat, end: nat)
      returns (longer: seq<Event>, s': State)
    requires Solo(suspends, run, s, w, task, i) && i <= end <= 6
    ensures Solo(suspends, longer, s', w, task, end) && run <= longer
    decreases end - i
  {
    if i == end {
      longer, s' := run, s;
    } else {
      SoloStep(suspends, run, s, w, task, i);
      longer, s' := SoloTo(suspends, run + [Resume(0, true)], Apply(s, Resume(0, true)), w, task, i + 1, end);
    }
  }

  lemma SoloCancelled(suspends: set<Stage>, run: seq<Event>, s: State, w: string, task: WorkflowTask, i: nat)
    requires Solo(suspends, run, s, w, task, i) && i < 6 && StageOf(PcAt(i)).value in suspends
    ensures Solo(suspends, run + [Cancel(w)], Apply(s, Cancel(w)), w, task, i)
  {
    GoesOn(suspends, run, s, Cancel(w));
  }

  function PlaceOf(g: Stage): nat {
    match g
    case Queueing => 0
    case Starting => 1
    case Taking => 2
    case Executing => 3
    case TaskEnding => 4
    case Ending => 5
    case Failing => 6
  }

  /** If any await of the normal course suspends, a workflow that is submitted once and cancelled there can
      complete all the same: nothing stops its submission, which overwrites the status when it gets to
      its end. */
  lemma CancelIsOverwritten(suspends: set<Stage>, g: Stage, w: string, task: WorkflowTask)
    requires g in suspends && g != Failing
    ensures exists run, s :: Going(suspends, run, s) && CompletesCancelled(run, s, w)
  {
    var i := PlaceOf(g);
    SoloBegins(suspends, w, task);
    var run, s := SoloTo(suspends, [Begin(0, w, Some(task))], Apply(INITIAL, Begin(0, w, Some(task))), w, task, 0, i);
    SoloCancelled(suspends, run, s, w, task, i);
    var run1 := run + [Cancel(w)];
    var run2, s2 := SoloTo(suspends, run1, Apply(s, Cancel(w)), w, task, i, 6);
    assert run2[|run|] == run1[|run|] == Cancel(w);
  }

  /** Once cancelled, nothing is in the normal course any more. */
  ghost predicate CancelledForGood(events: seq<Event>, s: State, w: string) {
    Cancel(w) in events ==>
      && (forall id :: id in s.submissions ==> Quiet(s.submissions[id].pc))
      && (w in s.statuses ==> s.statuses[w] != Completed)
  }

  lemma CancelQuiets(suspends: set<Stage>, events: seq<Event>, w: string)
    requires LoopRun(suspends, events) && After(events).Some? && suspends <= {Failing}
    requires Allowed(suspends, events, After(events).value, Cancel(w))
    ensures forall id :: id in After(events).value.submissions ==> Quiet(After(events).value.submissions[id].pc)
  {
    var s := After(events).value;
    forall id | id in s.submissions
      ensures Quiet(s.submissions[id].pc)
    {
      if InProgress(s, id) {
        OthersPause(suspends, events, Cancel(w), id);
      }
    }
  }

  lemma QuietStays(s: State, e: Event, w: string)
    requires Enabled(s, e) && !e.Begin? && (forall id :: id in s.submissions ==> Quiet(s.submissions[id].pc))
    requires w in s.statuses ==> s.statuses[w] != Completed
    ensures forall id :: id in Apply(s, e).submissions ==> Quiet(Apply(s, e).submissions[id].pc)
    ensures w in Apply(s, e).statuses ==> Apply(s, e).statuses[w] != Completed
  {
  }

  lemma {:induction false} NothingOverwrites(suspends: set<Stage>, events: seq<Event>, w: string)
    requires LoopRun(suspends, events) && After(events).Some? && suspends <= {Failing}
    requires forall i :: 0 <= i < |events| && events[i].Begin? ==> i == 0
    ensures CancelledForGood(events, After(events).value, w)
  {
    if events != [] {
      var n := |events| - 1;
      var s, e := After(events[..n]).value, events[n];
      NothingOverwrites(suspends, events[..n], w);
      assert events == events[..n] + [e];
      if Cancel(w) in events[..n] {
        QuietStays(s, e, w);
      } else if e == Cancel(w) {
        CancelQuiets(suspends, events[..n], w);
      }
    }
  }

  /** Under an event loop a workflow that is submitted once can complete after a cancellation if and only
      if some await of the normal course suspends. */
  lemma OverwritingExactly(suspends: set<Stage>, w: string)
    ensures (exists run, s :: Going(suspends, run, s) && CompletesCancelled(run, s, w))
       <==> exists g :: g in suspends && g != Failing
  {
    if run, s :| Going(suspends, run, s) && CompletesCancelled(run, s, w) {
      if suspends <= {Failing} {
        NothingOverwrites(suspends, run, w);
      }
    }
    if g :| g in suspends && g != Failing {
      CancelIsOverwritten(suspends, g, w, WorkflowTask("", w, ""));
    }
  }
}
