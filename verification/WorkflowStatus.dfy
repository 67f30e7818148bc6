/** What the status of a workflow tells while submissions run concurrently. */
module WorkflowStatus {
  import opened Wrappers
  import opened Sorting
  import opened WorkflowQueue
  import opened WorkflowSubmit
  import opened WorkflowTheorems

  /** The status of a workflow, by what its one submission awaits or has returned. */
  function Expected(pc: Pc): Option<Status> {
    match pc
    case AnnouncingQueued => Some(Pending)
    case AnnouncingStart => Some(Pending)
    case AnnouncingTask(_) => Some(Running)
    case Dispatching(_) => Some(Running)
    case AnnouncingTaskEnd(_) => Some(Running)
    case AnnouncingEnd(_) => Some(Running)
    case AnnouncingFailure => Some(Failed)
    case Returned(success) => Some(if success then Completed else Failed)
    case Gone => None
  }

  /** Nobody else submits the workflow, and nobody changes its status from outside. */
  predicate LeftAlone(e: Event, id: nat, w: string) {
    match e
    case Begin(other, v, _) => v == w ==> other == id
    case Resume(_, _) => true
    case Abandon(_) => true
    case Cancel(v) => v != w
    case Pause(v) => v != w
    case Continue(v) => v != w
  }

  ghost predicate InOneHand(s: State, id: nat, w: string) {
    && (forall k :: k in s.submissions && s.submissions[k].workflowId == w ==> k == id)
    && (id in s.submissions && s.submissions[id].workflowId == w && Expected(s.submissions[id].pc).Some? ==>
          w in s.statuses && Some(s.statuses[w]) == Expected(s.submissions[id].pc))
  }

  /** A step of submission `k`, which may set the status of its own workflow only. */
  lemma SubmissionMoves(s: State, s': State, k: nat, id: nat, w: string)
    requires InOneHand(s, id, w) && k in s'.submissions
    requires s'.submissions == s.submissions[k := s'.submissions[k]]
    requires k in s.submissions ==> s'.submissions[k].workflowId == s.submissions[k].workflowId
    requires s'.submissions[k].workflowId == w ==> k == id
    requires s'.submissions[k].workflowId != w ==> (w in s'.statuses <==> w in s.statuses)
    requires s'.submissions[k].workflowId != w && w in s.statuses ==> s'.statuses[w] == s.statuses[w]
    requires s'.submissions[k].workflowId == w && Expected(s'.submissions[k].pc).Some? ==>
               w in s'.statuses && Some(s'.statuses[w]) == Expected(s'.submissions[k].pc)
    ensures InOneHand(s', id, w)
  {
  }

  lemma ResumeStatus(s: State, k: nat, ok: bool, id: nat, w: string)
    requires InProgress(s, k) && InOneHand(s, id, w)
    ensures InOneHand(ResumeSubmission(s, k, ok), id, w)
  {
    var s' := ResumeSubmission(s, k, ok);
    assert s.submissions[k].workflowId == w ==> k == id;
    SubmissionMoves(s, s', k, id, w);
  }

  lemma StatusStep(s: State, e: Event, id: nat, w: string)
    requires Enabled(s, e) && LeftAlone(e, id, w) && InOneHand(s, id, w)
    ensures InOneHand(Apply(s, e), id, w)
  {
    match e
    case Begin(k, v, _) => SubmissionMoves(s, Apply(s, e), k, id, w);
    case Resume(k, ok) => ResumeStatus(s, k, ok, id, w);
    case Abandon(k) => SubmissionMoves(s, Apply(s, e), k, id, w);
    case Cancel(_) =>
    case Pause(_) =>
    case Continue(_) =>
  }

  /** While a workflow is submitted once and left alone otherwise, its status tells how far the
      submission is: completed exactly if it returned a success, failed if it did not succeed. */
  lemma {:induction false} StatusTells(events: seq<Event>, id: nat, w: string)
    requires After(events).Some? && forall e :: e in events ==> LeftAlone(e, id, w)
    ensures InOneHand(After(events).value, id, w)
  {
    if events != [] {
      var n := |events| - 1;
      assert forall e :: e in events[..n] ==> e in events;
      StatusTells(events[..n], id, w);
      assert events[n] in events;
      StatusStep(After(events[..n]).value, events[n], id, w);
    }
  }

  /** A submission ends in one of three ways: it returns a success when the announcement of its end comes
      back, a failure when the announcement of its failure comes back, and raises if that announcement
      does or if it is cancelled; any other await that raises leads to the announcement of the failure. */
  lemma HowItGoesOn(s: State, e: Event, id: nat)
    requires Enabled(s, e) && InProgress(s, id)
    ensures id in Apply(s, e).submissions
    ensures var pc, pc' := s.submissions[id].pc, Apply(s, e).submissions[id].pc;
            && (pc' == Returned(true) <==> e == Resume(id, true) && pc.AnnouncingEnd?)
            && (pc' == Returned(false) <==> e == Resume(id, true) && pc.AnnouncingFailure?)
            && (pc' == Gone <==> e == Abandon(id) || (e == Resume(id, false) && pc.AnnouncingFailure?))
            && (e == Resume(id, false) && !pc.AnnouncingFailure? ==> pc'.AnnouncingFailure?)
  {
    if e.Resume? && e.id == id {
      ResumesOnwards(s, id, e.ok);
    }
  }

  lemma ResumesOnwards(s: State, id: nat, ok: bool)
    requires InProgress(s, id)
    ensures id in ResumeSubmission(s, id, ok).submissions
    ensures var pc, pc' := s.submissions[id].pc, ResumeSubmission(s, id, ok).submissions[id].pc;
            && (pc' == Returned(true) <==> ok && pc.AnnouncingEnd?)
            && (pc' == Returned(false) <==> ok && pc.AnnouncingFailure?)
            && (pc' == Gone <==> !ok && pc.AnnouncingFailure?)
            && (!ok && !pc.AnnouncingFailure? ==> pc'.AnnouncingFailure?)
  {
  }

  // ----- when a cancellation stays

  /** The submission does not set the status any more. */
  predicate Quiet(pc: Pc) {
    pc.AnnouncingFailure? || pc.Returned? || pc.Gone?
  }

  /** The workflow's status is not changed from outside, and its submission is not abandoned. */
  predicate Undisturbed(e: Event, id: nat, w: string) {
    match e
    case Begin(_, _, _) => true
    case Resume(_, _) => true
    case Abandon(k) => k != id
    case Cancel(v) => v != w
    case Pause(v) => v != w
    case Continue(v) => v != w
  }

  predicate SubmittedBy(e: Event, id: nat, w: string) {
    e.Begin? && e.workflowId == w ==> e.id == id
  }

  /** Only this submission is for the workflow, and it is there if the workflow has a status. */
  ghost predicate SoleSubmission(s: State, id: nat, w: string) {
    && (forall k :: k in s.submissions && s.submissions[k].workflowId == w ==> k == id)
    && (w in s.statuses ==> id in s.submissions && s.submissions[id].workflowId == w)
    && (id in s.submissions && s.submissions[id].workflowId == w ==> w in s.statuses)
  }

  lemma SoleResume(s: State, k: nat, ok: bool, id: nat, w: string)
    requires InProgress(s, k) && SoleSubmission(s, id, w)
    ensures SoleSubmission(ResumeSubmission(s, k, ok), id, w)
  {
    var s' := ResumeSubmission(s, k, ok);
    assert s'.submissions == s.submissions[k := s'.submissions[k]];
    assert s'.submissions[k].workflowId == s.submissions[k].workflowId;
    assert s'.statuses.Keys <= s.statuses.Keys + {s.submissions[k].workflowId};
    assert s.statuses.Keys <= s'.statuses.Keys;
  }

  lemma SoleStep(s: State, e: Event, id: nat, w: string)
    requires Enabled(s, e) && SubmittedBy(e, id, w) && SoleSubmission(s, id, w)
    ensures SoleSubmission(Apply(s, e), id, w)
  {
    match e
    case Begin(k, v, _) =>
      assert Apply(s, e).submissions == s.submissions[k := Apply(s, e).submissions[k]];
    case Resume(k, ok) => SoleResume(s, k, ok, id, w);
    case Abandon(_) =>
    case Cancel(_) =>
    case Pause(_) =>
    case Continue(_) =>
  }

  lemma {:induction false} SoleRun(events: seq<Event>, id: nat, w: string)
    requires After(events).Some? && forall e :: e in events ==> SubmittedBy(e, id, w)
    ensures SoleSubmission(After(events).value, id, w)
  {
    if events != [] {
      var n := |events| - 1;
      assert forall e :: e in events[..n] ==> e in events;
      SoleRun(events[..n], id, w);
      assert events[n] in events;
      SoleStep(After(events[..n]).value, events[n], id, w);
    }
  }

  /** What has come of the cancellation: it stands if the submission was quiet by then, and is
      overwritten before the submission becomes quiet otherwise. */
  ghost predicate CancelFate(s: State, id: nat, w: string, quiet: bool) {
    && id in s.submissions && s.submissions[id].workflowId == w && w in s.statuses
    && if quiet then Quiet(s.submissions[id].pc) && s.statuses[w] == Cancelled
       else Quiet(s.submissions[id].pc) ==> s.statuses[w] != Cancelled
  }

  lemma FateAfterResume(s: State, k: nat, ok: bool, id: nat, w: string, quiet: bool)
    requires InProgress(s, k) && SoleSubmission(s, id, w) && CancelFate(s, id, w, quiet)
    ensures CancelFate(ResumeSubmission(s, k, ok), id, w, quiet)
  {
    var s' := ResumeSubmission(s, k, ok);
    if k != id {
      assert s.submissions[k].workflowId != w;
      assert s'.submissions[id] == s.submissions[id];
      assert w in s'.statuses && s'.statuses[w] == s.statuses[w];
    }
  }

  lemma FateStep(s: State, e: Event, id: nat, w: string, quiet: bool)
    requires Enabled(s, e) && SubmittedBy(e, id, w) && Undisturbed(e, id, w)
    requires SoleSubmission(s, id, w) && CancelFate(s, id, w, quiet)
    ensures CancelFate(Apply(s, e), id, w, quiet)
  {
    match e
    case Begin(k, v, _) => assert v != w;
    case Resume(k, ok) => FateAfterResume(s, k, ok, id, w, quiet);
    case Abandon(_) =>
    case Cancel(_) =>
    case Pause(_) =>
    case Continue(_) =>
  }

  lemma {:induction false} FateOfRun(events: seq<Event>, n: nat, id: nat, w: string)
    requires n < |events| && After(events).Some? && events[n] == Cancel(w)
    requires forall e :: e in events ==> SubmittedBy(e, id, w)
    requires forall i :: n < i < |events| ==> Undisturbed(events[i], id, w)
    ensures After(events[..n]).Some? && id in After(events[..n]).value.submissions
    ensures CancelFate(After(events).value, id, w, Quiet(After(events[..n]).value.submissions[id].pc))
    decreases |events|
  {
    var last := |events| - 1;
    var front := events[..last];
    assert forall e :: e in front ==> e in events;
    SoleRun(front, id, w);
    assert events[last] in events;
    if n < last {
      assert front[..n] == events[..n];
      FateOfRun(front, n, id, w);
      FateStep(After(front).value, events[last], id, w, Quiet(After(events[..n]).value.submissions[id].pc));
    }
  }

  /** For a workflow submitted once, cancelled by the `n`-th event and not disturbed afterwards: once
      its submission is over, the workflow is cancelled if and only if by the time of the
      cancellation the submission had returned, was announcing its failure, or was gone. */
  lemma CancelStaysExactly(events: seq<Event>, n: nat, id: nat, w: string)
    requires n < |events| && After(events).Some? && events[n] == Cancel(w)
    requires forall e :: e in events ==> SubmittedBy(e, id, w)
    requires forall i :: n < i < |events| ==> Undisturbed(events[i], id, w)
    requires !InProgress(After(events).value, id)
    ensures After(events[..n]).Some? && id in After(events[..n]).value.submissions && w in After(events).value.statuses
    ensures After(events).value.statuses[w] == Cancelled <==> Quiet(After(events[..n]).value.submissions[id].pc)
  {
    FateOfRun(events, n, id, w);
  }

  /** What the caller of `cancel` sees: if nobody changed the status before, and the submission is
      not gone, the cancellation stays if and only if the status is completed or failed. */
  lemma CancelStaysAsSeen(events: seq<Event>, n: nat, id: nat, w: string)
    requires n < |events| && After(events).Some? && events[n] == Cancel(w)
    requires forall e :: e in events[..n] ==> LeftAlone(e, id, w)
    requires forall e :: e in events ==> SubmittedBy(e, id, w)
    requires forall i :: n < i < |events| ==> Undisturbed(events[i], id, w)
    requires !InProgress(After(events).value, id)
    ensures After(events[..n]).Some? && id in After(events[..n]).value.submissions && w in After(events).value.statuses
    ensures var s := After(events[..n]).value;
            !s.submissions[id].pc.Gone? ==>
              w in s.statuses
              && (After(events).value.statuses[w] == Cancelled <==> s.statuses[w] == Completed || s.statuses[w] == Failed)
  {
    CancelStaysExactly(events, n, id, w);
    StatusTells(events[..n], id, w);
    assert forall e :: e in events[..n] ==> e in events;
    SoleRun(events[..n], id, w);
    StartIsRun(events, n + 1);
    NextEnabled(events, n);
  }

  lemma NextEnabled(events: seq<Event>, n: nat)
    requires n < |events| && After(events[..n + 1]).Some?
    ensures After(events[..n]).Some? && Enabled(After(events[..n]).value, events[n])
  {
    assert events[..n + 1][..n] == events[..n];
  }

  // ----- pausing

  /** Pausing a workflow and continuing it makes it running, whatever its status was; continuing one that
      is not paused changes nothing. */
  lemma PauseAndContinue(s: State, w: string)
    requires w in s.statuses
    ensures Enabled(s, Pause(w)) && Apply(s, Pause(w)).statuses == s.statuses[w := Paused]
    ensures Enabled(Apply(s, Pause(w)), Continue(w))
    ensures Apply(Apply(s, Pause(w)), Continue(w)).statuses == s.statuses[w := Status.Running]
    ensures s.statuses[w] != Paused ==> Apply(s, Continue(w)) == s
  {
  }
}
