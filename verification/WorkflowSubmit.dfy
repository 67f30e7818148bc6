/** Concurrent workflow submissions (core/workflow/manager.py): every await in `submit` is a step
    boundary, and all submissions share one FIFO queue. */
module WorkflowSubmit {
  import opened Wrappers
  import opened Sorting
  import opened WorkflowQueue

  datatype Status = Pending | Running | Paused | Completed | Failed | Cancelled

  /** What a submission awaits.  `pos` says which of the tasks dequeued so far it has taken. */
  datatype Pc =
    | AnnouncingQueued | AnnouncingStart
    | AnnouncingTask(pos: nat) | Dispatching(pos: nat) | AnnouncingTaskEnd(pos: nat) | AnnouncingEnd(pos: nat)
    | AnnouncingFailure
    | Returned(success: bool) | Gone

  datatype Submission = Submission(workflowId: string, pc: Pc)

  /** From `enqueued` on it is history: what was enqueued and dequeued, which dequeued tasks were
      dispatched, in that order, which were dropped before they could be, how many submissions
      left a task behind in the queue, and whether a dequeue ever found the queue empty. */
  datatype State = State(
    submissions: map<nat, Submission>,
    queue: seq<WorkflowTask>,
    statuses: map<string, Status>,
    enqueued: seq<WorkflowTask>,
    dequeued: seq<WorkflowTask>,
    dispatched: seq<nat>,
    dropped: set<nat>,
    stranded: nat,
    foundEmpty: bool)

  const INITIAL := State(map[], [], map[], [], [], [], {}, 0, false)

  /** A submission begins (`None` when scheduling raises), an await comes back or raises, a
      submission is cancelled while it waits, or a status is changed from outside. */
  datatype Event =
    | Begin(id: nat, workflowId: string, task: Option<WorkflowTask>)
    | Resume(id: nat, ok: bool)
    | Abandon(id: nat)
    | Cancel(workflowId: string) | Pause(workflowId: string) | Continue(workflowId: string)

  predicate InProgress(s: State, id: nat) {
    id in s.submissions && !s.submissions[id].pc.Returned? && !s.submissions[id].pc.Gone?
  }

  predicate Enabled(s: State, e: Event) {
    match e
    case Begin(id, _, _) => id !in s.submissions
    case Resume(id, _) => InProgress(s, id)
    case Abandon(id) => InProgress(s, id)
    case Cancel(w) => w in s.statuses
    case Pause(w) => w in s.statuses
    case Continue(w) => w in s.statuses
  }

  function SetPc(s: State, id: nat, pc: Pc): State
    requires id in s.submissions
  {
    s.(submissions := s.submissions[id := s.submissions[id].(pc := pc)])
  }

  /** What leaving the normal course does to the history. */
  function Leave(s: State, id: nat): State
    requires id in s.submissions
  {
    match s.submissions[id].pc
    case AnnouncingQueued => s.(stranded := s.stranded + 1)
    case AnnouncingStart => s.(stranded := s.stranded + 1)
    case AnnouncingTask(pos) => s.(dropped := s.dropped + {pos})
    case _ => s
  }

  /** The `except` branch up to its await. */
  function Fail(s: State, id: nat): State
    requires id in s.submissions
  {
    SetPc(Leave(s, id), id, AnnouncingFailure).(statuses := s.statuses[s.submissions[id].workflowId := Failed])
  }

  /** From the second announcement to the next await: mark as running and take the next task. */
  function TakeNext(s: State, id: nat): State
    requires id in s.submissions
  {
    var s1 := s.(statuses := s.statuses[s.submissions[id].workflowId := Running]);
    if s.queue == [] then Fail(s1.(foundEmpty := true), id)
    else
      SetPc(s1.(queue := s.queue[1..], dequeued := s.dequeued + [s.queue[0]]), id, AnnouncingTask(|s.dequeued|))
  }

  function ResumeSubmission(s: State, id: nat, ok: bool): State
    requires id in s.submissions
  {
    match s.submissions[id].pc
    case AnnouncingFailure => SetPc(s, id, if ok then Returned(false) else Gone)
    case Returned(_) => s
    case Gone => s
    case AnnouncingQueued => if ok then SetPc(s, id, AnnouncingStart) else Fail(s, id)
    case AnnouncingStart => if ok then TakeNext(s, id) else Fail(s, id)
    case AnnouncingTask(pos) =>
      if ok then SetPc(s.(dispatched := s.dispatched + [pos]), id, Dispatching(pos)) else Fail(s, id)
    case Dispatching(pos) => if ok then SetPc(s, id, AnnouncingTaskEnd(pos)) else Fail(s, id)
    case AnnouncingTaskEnd(pos) => if ok then SetPc(s, id, AnnouncingEnd(pos)) else Fail(s, id)
    case AnnouncingEnd(pos) =>
      if ok then SetPc(s, id, Returned(true)).(statuses := s.statuses[s.submissions[id].workflowId := Completed])
      else Fail(s, id)
  }

  function Apply(s: State, e: Event): State
    requires Enabled(s, e)
  {
    match e
    case Begin(id, w, Some(task)) =>
      s.(submissions := s.submissions[id := Submission(w, AnnouncingQueued)], statuses := s.statuses[w := Pending],
         queue := s.queue + [task], enqueued := s.enqueued + [task])
    case Begin(id, w, None) =>
      s.(submissions := s.submissions[id := Submission(w, AnnouncingFailure)], statuses := s.statuses[w := Failed])
    case Resume(id, ok) => ResumeSubmission(s, id, ok)
    case Abandon(id) => SetPc(Leave(s, id), id, Gone)
    case Cancel(w) => s.(statuses := s.statuses[w := Cancelled])
    case Pause(w) => s.(statuses := s.statuses[w := Paused])
    case Continue(w) => if s.statuses[w] == Paused then s.(statuses := s.statuses[w := Running]) else s
  }

  function After(events: seq<Event>): Option<State> {
    if events == [] then Some(INITIAL)
    else
      var n := |events| - 1;
      match After(events[..n])
      case None => None
      case Some(s) => if Enabled(s, events[n]) then Some(Apply(s, events[n])) else None
  }

  // ----- the invariant

  /** Submissions that have enqueued and not dequeued yet. */
  function Waiting(s: State): set<nat> {
    set id | id in s.submissions && (s.submissions[id].pc.AnnouncingQueued? || s.submissions[id].pc.AnnouncingStart?)
  }

  predicate HoldsTask(s: State, id: nat, pos: nat) {
    id in s.submissions && s.submissions[id].pc == AnnouncingTask(pos)
  }

  /** Nothing is lost and nothing is doubled: what was enqueued is what was dequeued followed by
      what is queued; the queue holds one task for each waiting submission and each one that gave
      up while waiting. */
  ghost predicate QueueOk(s: State) {
    && s.dequeued + s.queue == s.enqueued
    && !s.foundEmpty
    && |s.queue| == |Waiting(s)| + s.stranded
  }

  /** Each dequeued task is held by exactly one submission about to dispatch it, or has been
      dispatched, once, or has been dropped. */
  ghost predicate PositionsOk(s: State) {
    && Distinct(s.dispatched)
    && (forall pos :: pos in s.dispatched || pos in s.dropped ==> pos < |s.dequeued|)
    && (forall pos :: pos in s.dispatched ==> pos !in s.dropped)
    && (forall id: nat, pos: nat :: HoldsTask(s, id, pos) ==> pos < |s.dequeued| && pos !in s.dispatched && pos !in s.dropped)
    && (forall id: nat, other: nat, pos: nat :: HoldsTask(s, id, pos) && HoldsTask(s, other, pos) ==> id == other)
    && (forall pos :: 0 <= pos < |s.dequeued| ==>
          pos in s.dispatched || pos in s.dropped || exists id: nat :: HoldsTask(s, id, pos))
  }

  ghost predicate Inv(s: State) {
    QueueOk(s) && PositionsOk(s)
  }

  // ----- steps that concern the queue

  lemma WaitingAfter(s: State, s': State, id: nat, pc: Pc)
    requires s'.submissions.Keys == s.submissions.Keys + {id} && s'.submissions[id].pc == pc
    requires forall k :: k in s.submissions && k != id ==> s'.submissions[k] == s.submissions[k]
    ensures Waiting(s') == if pc.AnnouncingQueued? || pc.AnnouncingStart? then Waiting(s) + {id} else Waiting(s) - {id}
  {
    forall k | k in Waiting(s') || k in Waiting(s)
      ensures k in Waiting(s') <==>
                k in if pc.AnnouncingQueued? || pc.AnnouncingStart? then Waiting(s) + {id} else Waiting(s) - {id}
    {
      assert k in s'.submissions;
    }
  }

  lemma FailQueue(s: State, id: nat)
    requires QueueOk(s) && id in s.submissions
    ensures QueueOk(Fail(s, id))
  {
    WaitingAfter(s, Fail(s, id), id, AnnouncingFailure);
  }

  lemma AbandonQueue(s: State, id: nat)
    requires QueueOk(s) && id in s.submissions
    ensures QueueOk(SetPc(Leave(s, id), id, Gone))
  {
    WaitingAfter(s, SetPc(Leave(s, id), id, Gone), id, Gone);
  }

  lemma TakeNextQueue(s: State, id: nat)
    requires QueueOk(s) && id in s.submissions && s.submissions[id].pc.AnnouncingStart?
    ensures QueueOk(TakeNext(s, id)) && s.queue != []
  {
    assert id in Waiting(s);
    WaitingAfter(s, TakeNext(s, id), id, AnnouncingTask(|s.dequeued|));
    assert s.queue == [s.queue[0]] + s.queue[1..];
  }

  lemma ResumeQueue(s: State, id: nat, ok: bool)
    requires QueueOk(s) && InProgress(s, id)
    ensures QueueOk(ResumeSubmission(s, id, ok))
  {
    var pc := s.submissions[id].pc;
    if !ok && !pc.AnnouncingFailure? {
      FailQueue(s, id);
    } else if pc.AnnouncingStart? {
      TakeNextQueue(s, id);
    } else {
      var s' := ResumeSubmission(s, id, ok);
      WaitingAfter(s, s', id, s'.submissions[id].pc);
    }
  }

  lemma BeginQueue(s: State, id: nat, w: string, task: Option<WorkflowTask>)
    requires QueueOk(s) && id !in s.submissions
    ensures QueueOk(Apply(s, Begin(id, w, task)))
  {
    var s' := Apply(s, Begin(id, w, task));
    WaitingAtBegin(s, s', id, s'.submissions[id].pc);
    if task.Some? {
      assert s'.dequeued + s'.queue == s.dequeued + s.queue + [task.value];
    }
  }

  lemma WaitingAtBegin(s: State, s': State, id: nat, pc: Pc)
    requires id !in s.submissions && s'.submissions.Keys == s.submissions.Keys + {id} && s'.submissions[id].pc == pc
    requires forall k :: k in s.submissions && k != id ==> s'.submissions[k] == s.submissions[k]
    ensures |Waiting(s')| == |Waiting(s)| + if pc.AnnouncingQueued? || pc.AnnouncingStart? then 1 else 0
  {
    WaitingAfter(s, s', id, pc);
    assert id !in Waiting(s);
    assert Waiting(s) - {id} == Waiting(s);
  }

  lemma StatusQueue(s: State, s': State)
    requires QueueOk(s) && s' == s.(statuses := s'.statuses)
    ensures QueueOk(s')
  {
    assert Waiting(s') == Waiting(s);
  }

  lemma StepQueue(s: State, e: Event)
    requires QueueOk(s) && Enabled(s, e)
    ensures QueueOk(Apply(s, e))
  {
    match e
    case Begin(id, w, task) => BeginQueue(s, id, w, task);
    case Resume(id, ok) => ResumeQueue(s, id, ok);
    case Abandon(id) => AbandonQueue(s, id);
    case Cancel(w) => StatusQueue(s, Apply(s, e));
    case Pause(w) => StatusQueue(s, Apply(s, e));
    case Continue(w) => StatusQueue(s, Apply(s, e));
  }

  // ----- steps that concern the dequeued tasks

  lemma HoldsAfter(s: State, s': State, id: nat)
    requires id in s'.submissions && s'.submissions.Keys == s.submissions.Keys + {id}
    requires forall k :: k in s.submissions && k != id ==> s'.submissions[k] == s.submissions[k]
    ensures forall k: nat, pos: nat :: HoldsTask(s', k, pos) <==>
              if k == id then s'.submissions[id].pc == AnnouncingTask(pos) else HoldsTask(s, k, pos)
  {
  }

  lemma FailPositions(s: State, id: nat, pc: Pc)
    requires PositionsOk(s) && id in s.submissions && !pc.AnnouncingTask?
    ensures PositionsOk(SetPc(Leave(s, id), id, pc))
  {
    var s' := SetPc(Leave(s, id), id, pc);
    HoldsAfter(s, s', id);
    if s.submissions[id].pc.AnnouncingTask? {
      assert HoldsTask(s, id, s.submissions[id].pc.pos);
    }
    forall pos | 0 <= pos < |s'.dequeued|
      ensures pos in s'.dispatched || pos in s'.dropped || exists k: nat :: HoldsTask(s', k, pos)
    {
      if k: nat :| HoldsTask(s, k, pos) {
        assert k != id ==> HoldsTask(s', k, pos);
      }
    }
  }

  lemma TakePositions(s: State, s': State, id: nat)
    requires PositionsOk(s) && id in s.submissions && !s.submissions[id].pc.AnnouncingTask?
    requires |s'.dequeued| == |s.dequeued| + 1 && s'.dispatched == s.dispatched && s'.dropped == s.dropped
    requires s'.submissions == s.submissions[id := s.submissions[id].(pc := AnnouncingTask(|s.dequeued|))]
    ensures PositionsOk(s')
  {
    HoldsAfter(s, s', id);
    forall pos | 0 <= pos < |s'.dequeued|
      ensures pos in s'.dispatched || pos in s'.dropped || exists k: nat :: HoldsTask(s', k, pos)
    {
      if pos == |s.dequeued| {
        assert HoldsTask(s', id, pos);
      } else if k: nat :| HoldsTask(s, k, pos) {
        assert HoldsTask(s', k, pos);
      }
    }
  }

  lemma DispatchPositions(s: State, id: nat, p: nat)
    requires PositionsOk(s) && HoldsTask(s, id, p)
    ensures PositionsOk(SetPc(s.(dispatched := s.dispatched + [p]), id, Dispatching(p)))
  {
    var s' := SetPc(s.(dispatched := s.dispatched + [p]), id, Dispatching(p));
    HoldsAfter(s, s', id);
    forall pos | 0 <= pos < |s'.dequeued|
      ensures pos in s'.dispatched || pos in s'.dropped || exists k: nat :: HoldsTask(s', k, pos)
    {
      if k: nat :| HoldsTask(s, k, pos) {
        assert k != id ==> HoldsTask(s', k, pos);
      }
    }
  }

  lemma SamePositions(s: State, s': State, id: nat)
    requires PositionsOk(s) && (id in s.submissions ==> !s.submissions[id].pc.AnnouncingTask?)
    requires s'.dequeued == s.dequeued && s'.dispatched == s.dispatched && s'.dropped == s.dropped
    requires s'.submissions.Keys == s.submissions.Keys + {id} && !s'.submissions[id].pc.AnnouncingTask?
    requires forall k :: k in s.submissions && k != id ==> s'.submissions[k] == s.submissions[k]
    ensures PositionsOk(s')
  {
    HoldsAfter(s, s', id);
    forall pos | 0 <= pos < |s'.dequeued|
      ensures pos in s'.dispatched || pos in s'.dropped || exists k: nat :: HoldsTask(s', k, pos)
    {
      if k: nat :| HoldsTask(s, k, pos) {
        assert HoldsTask(s', k, pos);
      }
    }
  }

  lemma StatusesAside(s: State, s': State)
    requires PositionsOk(s) && s'.submissions == s.submissions
    requires s'.dequeued == s.dequeued && s'.dispatched == s.dispatched && s'.dropped == s.dropped
    ensures PositionsOk(s')
  {
    assert forall k: nat, pos: nat :: HoldsTask(s', k, pos) <==> HoldsTask(s, k, pos);
    forall pos | 0 <= pos < |s'.dequeued|
      ensures pos in s'.dispatched || pos in s'.dropped || exists k: nat :: HoldsTask(s', k, pos)
    {
      if k: nat :| HoldsTask(s, k, pos) {
        assert HoldsTask(s', k, pos);
      }
    }
  }

  lemma StepPositions(s: State, e: Event)
    requires Inv(s) && Enabled(s, e)
    ensures PositionsOk(Apply(s, e))
  {
    var s' := Apply(s, e);
    match e
    case Begin(id, w, _) => SamePositions(s, s', id);
    case Resume(id, ok) =>
      var pc := s.submissions[id].pc;
      if !ok && !pc.AnnouncingFailure? {
        FailPositions(s, id, AnnouncingFailure);
        StatusesAside(SetPc(Leave(s, id), id, AnnouncingFailure), s');
      } else if pc.AnnouncingStart? {
        TakeNextQueue(s, id);
        TakePositions(s, s', id);
      } else if pc.AnnouncingTask? {
        DispatchPositions(s, id, pc.pos);
      } else {
        SamePositions(s, s', id);
      }
    case Abandon(id) => FailPositions(s, id, Gone);
    case Cancel(w) => StatusesAside(s, s');
    case Pause(w) => StatusesAside(s, s');
    case Continue(w) => StatusesAside(s, s');
  }

  lemma StepInv(s: State, e: Event)
    requires Inv(s) && Enabled(s, e)
    ensures Inv(Apply(s, e))
  {
    StepQueue(s, e);
    StepPositions(s, e);
  }

  /** The invariant holds after every run. */
  lemma {:induction false} RunInv(events: seq<Event>)
    requires After(events).Some?
    ensures Inv(After(events).value)
  {
    if events == [] {
      assert Waiting(INITIAL) == {};
    } else {
      var n := |events| - 1;
      RunInv(events[..n]);
      StepInv(After(events[..n]).value, events[n]);
    }
  }
}
