/** The status checks the distributed test polls while it waits for a
    connector to be running or paused. The status is what the REST status
    call returned: absent when that call raised, otherwise the connector's
    state and the list of its tasks' states. */
module ConnectorStatus {
  import opened Common

  datatype TaskStatus = TaskStatus(state: string)

  datatype Status = Status(connectorState: string, tasks: seq<TaskStatus>)

  const Running: string := "RUNNING"
  const Paused: string := "PAUSED"

  /** `_has_state`: false when the status call failed; otherwise whether
      the connector is in `state`. */
  function HasState(status: Option<Status>, state: string): (r: bool)
    ensures status.None? ==> !r
    ensures status.Some? ==> (r <==> status.value.connectorState == state)
  {
    status.Some? && status.value.connectorState == state
  }

  /** A connector is in at most one state at a time: a status has at most
      one state for which `_has_state` holds. */
  lemma HasStateUnique(status: Option<Status>, a: string, b: string)
    ensures HasState(status, a) && HasState(status, b) ==> a == b
  {
  }

  /** `reduce(operator.and_, bs, init)`: a left fold of `&` over `bs`. */
  function ReduceAnd(bs: seq<bool>, init: bool): bool {
    if bs == [] then init else ReduceAnd(bs[1..], init && bs[0])
  }

  /** The fold is true exactly when its start value and every element are. */
  lemma {:induction false} ReduceAndAll(bs: seq<bool>, init: bool)
    ensures ReduceAnd(bs, init) <==> init && forall i :: 0 <= i < |bs| ==> bs[i]
  {
    if bs != [] {
      ReduceAndAll(bs[1..], init && bs[0]);
      assert forall i :: 1 <= i < |bs| ==> bs[i] == bs[1..][i - 1];
    }
  }

  /** `[task['state'] == state for task in tasks]`. */
  function TaskMatches(tasks: seq<TaskStatus>, state: string): (r: seq<bool>)
    ensures |r| == |tasks|
    ensures forall i :: 0 <= i < |r| ==> r[i] == (tasks[i].state == state)
  {
    seq(|tasks|, i requires 0 <= i < |tasks| => tasks[i].state == state)
  }

  /** `_all_tasks_have_state`: false for an absent status and for a task
      count other than the expected one; otherwise true exactly when every
      task is in `state`, which holds vacuously with no tasks. */
  function AllTasksHaveState(status: Option<Status>, taskCount: nat, state: string): (r: bool)
    ensures r <==> (
      && status.Some?
      && |status.value.tasks| == taskCount
      && forall i :: 0 <= i < |status.value.tasks| ==> status.value.tasks[i].state == state)
  {
    if status.None? then false
    else
      var tasks := status.value.tasks;
      if |tasks| != taskCount then false
      else
        ReduceAndAll(TaskMatches(tasks, state), true);
        ReduceAnd(TaskMatches(tasks, state), true)
  }

  /** `is_running`, given the status the REST call returned and the
      connector's expected task count. */
  function IsRunning(status: Option<Status>, taskCount: nat): (r: bool)
    ensures r <==> (
      && status.Some?
      && status.value.connectorState == Running
      && |status.value.tasks| == taskCount
      && forall i :: 0 <= i < taskCount ==> status.value.tasks[i].state == Running)
  {
    HasState(status, Running) && AllTasksHaveState(status, taskCount, Running)
  }

  /** `is_paused`, given the status the REST call returned and the
      connector's expected task count. */
  function IsPaused(status: Option<Status>, taskCount: nat): (r: bool)
    ensures r <==> (
      && status.Some?
      && status.value.connectorState == Paused
      && |status.value.tasks| == taskCount
      && forall i :: 0 <= i < taskCount ==> status.value.tasks[i].state == Paused)
  {
    HasState(status, Paused) && AllTasksHaveState(status, taskCount, Paused)
  }

  /** No status is both running and paused: the connector state alone tells
      them apart, even for a connector with no tasks. */
  lemma RunningExcludesPaused(status: Option<Status>, taskCount: nat)
    ensures !(IsRunning(status, taskCount) && IsPaused(status, taskCount))
  {
    HasStateUnique(status, Running, Paused);
  }
}
