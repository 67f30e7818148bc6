/** The in-memory workflow queue (core/workflow/queue.py): a list and a lookup dictionary that are
    changed together. */
module WorkflowQueue {
  import opened Wrappers
  import opened Sorting

  datatype WorkflowTask = WorkflowTask(taskId: string, workflowId: string, targetCapability: string)

  function Without(tasks: seq<WorkflowTask>, taskId: string): seq<WorkflowTask> {
    if tasks == [] then []
    else
      var n := |tasks| - 1;
      Without(tasks[..n], taskId) + if tasks[n].taskId != taskId then [tasks[n]] else []
  }

  lemma {:induction false} WithoutMembers(tasks: seq<WorkflowTask>, taskId: string)
    ensures forall t :: t in Without(tasks, taskId) <==> t in tasks && t.taskId != taskId
    ensures OneEach(tasks) ==> OneEach(Without(tasks, taskId))
    ensures OneEach(tasks) ==> |Without(tasks, taskId)| == |tasks| - (if HasId(tasks, taskId) then 1 else 0)
  {
    if tasks != [] {
      var n := |tasks| - 1;
      WithoutMembers(tasks[..n], taskId);
      assert tasks == tasks[..n] + [tasks[n]];
      assert HasId(tasks, taskId) <==> HasId(tasks[..n], taskId) || tasks[n].taskId == taskId;
      if OneEach(tasks) {
        assert forall t :: t in tasks[..n] ==> t.taskId != tasks[n].taskId;
      }
    }
  }

  /** What is left keeps its order. */
  lemma {:induction false} WithoutKeepsOrder(tasks: seq<WorkflowTask>, taskId: string, i: nat, j: nat)
    requires i < j < |Without(tasks, taskId)|
    ensures exists p, q :: 0 <= p < q < |tasks| && tasks[p] == Without(tasks, taskId)[i]
                           && tasks[q] == Without(tasks, taskId)[j]
  {
    var n := |tasks| - 1;
    var front := Without(tasks[..n], taskId);
    if j < |front| {
      WithoutKeepsOrder(tasks[..n], taskId, i, j);
    } else {
      WithoutMembers(tasks[..n], taskId);
      assert front[i] in front;
      var p :| 0 <= p < n && tasks[..n][p] == front[i];
      assert tasks[p] == front[i] && tasks[n] == Without(tasks, taskId)[j];
    }
  }

  ghost predicate HasId(tasks: seq<WorkflowTask>, taskId: string) {
    exists t :: t in tasks && t.taskId == taskId
  }

  /** No two queued tasks have one id. */
  ghost predicate OneEach(tasks: seq<WorkflowTask>) {
    forall i, j :: 0 <= i < j < |tasks| ==> tasks[i].taskId != tasks[j].taskId
  }

  /** Whatever is looked up is queued. */
  ghost predicate Consistent(queue: seq<WorkflowTask>, lookup: map<string, WorkflowTask>) {
    forall id :: id in lookup ==> lookup[id].taskId == id && lookup[id] in queue
  }

  /** Ids are queued once each, and exactly the queued tasks can be looked up. */
  ghost predicate InStep(queue: seq<WorkflowTask>, lookup: map<string, WorkflowTask>) {
    && Consistent(queue, lookup) && OneEach(queue)
    && forall t :: t in queue ==> t.taskId in lookup && lookup[t.taskId] == t
  }

  class InMemoryWorkflowQueue {
    var queue: seq<WorkflowTask>
    var lookup: map<string, WorkflowTask>

    constructor ()
      ensures queue == [] && InStep(queue, lookup)
    {
      queue, lookup := [], map[];
    }

    method Enqueue(task: WorkflowTask)
      requires Consistent(queue, lookup)
      modifies this
      ensures queue == old(queue) + [task] && lookup == old(lookup)[task.taskId := task]
      ensures Consistent(queue, lookup)
      ensures old(InStep(queue, lookup)) ==> (InStep(queue, lookup) <==> task.taskId !in old(lookup))
    {
      if InStepNow() {
        EnqueueInStep(queue, lookup, task);
      }
      queue := queue + [task];
      lookup := lookup[task.taskId := task];
    }

    ghost predicate InStepNow()
      reads this
    {
      InStep(queue, lookup)
    }

    method Dequeue() returns (task: Option<WorkflowTask>)
      requires Consistent(queue, lookup)
      modifies this
      ensures if old(queue) == [] then task == None && queue == [] && lookup == old(lookup)
              else task == Some(old(queue)[0]) && queue == old(queue)[1..] && lookup == old(lookup) - {old(queue)[0].taskId}
      ensures Consistent(queue, lookup)
      ensures old(InStep(queue, lookup)) ==> InStep(queue, lookup)
    {
      if queue == [] {
        return None;
      }
      assert queue == [queue[0]] + queue[1..];
      task := Some(queue[0]);
      queue := queue[1..];
      lookup := lookup - {task.value.taskId};
    }

    method Remove(taskId: string) returns (found: bool)
      requires Consistent(queue, lookup)
      modifies this
      ensures found == (taskId in old(lookup))
      ensures lookup == old(lookup) - {taskId}
      ensures queue == if found then Without(old(queue), taskId) else old(queue)
      ensures Consistent(queue, lookup)
      ensures old(InStep(queue, lookup)) ==> InStep(queue, lookup)
    {
      WithoutMembers(queue, taskId);
      found := taskId in lookup;
      lookup := lookup - {taskId};
      if found {
        queue := Without(queue, taskId);
      }
    }

    /** A found task is queued; while list and dictionary are in step every queued task is found. */
    method Lookup(taskId: string) returns (task: Option<WorkflowTask>)
      requires Consistent(queue, lookup)
      ensures task.Some? <==> taskId in lookup
      ensures task.Some? ==> task.value in queue && task.value.taskId == taskId
      ensures InStep(queue, lookup) ==> (task.Some? <==> HasId(queue, taskId))
    {
      if taskId in lookup {
        return Some(lookup[taskId]);
      }
      return None;
    }

    method Status() returns (queued: nat, tracked: nat)
      ensures queued == |queue| && tracked == |lookup|
      ensures InStep(queue, lookup) ==> queued == tracked
    {
      if InStepNow() {
        InStepSizes(queue, lookup);
      }
      return |queue|, |lookup|;
    }
  }

  /** Enqueuing keeps list and dictionary in step exactly when the id is not queued already. */
  lemma EnqueueInStep(queue: seq<WorkflowTask>, lookup: map<string, WorkflowTask>, task: WorkflowTask)
    requires InStep(queue, lookup)
    ensures InStep(queue + [task], lookup[task.taskId := task]) <==> task.taskId !in lookup
  {
    var queue', lookup' := queue + [task], lookup[task.taskId := task];
    if task.taskId in lookup {
      var i :| 0 <= i < |queue| && queue[i] == lookup[task.taskId];
      assert queue'[i].taskId == queue'[|queue|].taskId;
    } else {
      assert forall t :: t in queue ==> t.taskId != task.taskId;
    }
  }

  /** Enqueuing one task twice puts the two out of step, and dequeuing it once then leaves a queued
      task that cannot be looked up. */
  lemma EnqueuedTwice(task: WorkflowTask)
    ensures InStep([task], map[task.taskId := task])
    ensures !InStep([task] + [task], map[task.taskId := task][task.taskId := task])
    ensures task in ([task] + [task])[1..] && task.taskId !in map[task.taskId := task] - {task.taskId}
  {
    EnqueueInStep([task], map[task.taskId := task], task);
    assert ([task] + [task])[1] == task;
  }

  lemma InStepSizes(queue: seq<WorkflowTask>, lookup: map<string, WorkflowTask>)
    requires InStep(queue, lookup)
    ensures |queue| == |lookup|
  {
    var ids := seq(|queue|, i requires 0 <= i < |queue| => queue[i].taskId);
    DistinctLength(ids);
    forall id
      ensures id in ids <==> id in lookup
    {
      if id in ids {
        var i :| 0 <= i < |ids| && ids[i] == id;
        assert queue[i] in queue;
      }
      if id in lookup {
        var i :| 0 <= i < |queue| && queue[i] == lookup[id];
        assert ids[i] == id;
      }
    }
    assert (set x | x in ids) == lookup.Keys;
    assert |lookup| == |lookup.Keys|;
  }
}
