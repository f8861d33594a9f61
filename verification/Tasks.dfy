/** Tasks and what may happen to one (src/task.rs). */
module Tasks {
  import opened Wrappers
  import opened Utf8
  import Detail

  const DETAIL_CAP: nat := 256 * 1024

  type TaskId = nat
  type RecordId = nat
  type ActionId = nat
  type Timestamp = nat

  datatype TaskState = Queued | Running | Cancelling | Succeeded | Failed | Cancelled | Interrupted {
    predicate IsTerminal() {
      Succeeded? || Failed? || Cancelled? || Interrupted?
    }
  }

  datatype Progress = Progress(completed: nat, total: nat)

  datatype TaskChange = TaskChange(field: string, before: Option<string>, after: Option<string>)

  /** `id` is the task's name in this session, `recordId` its name in the history. */
  datatype Task = Task(
    id: TaskId,
    recordId: RecordId,
    actionId: ActionId,
    targetLabel: string,
    state: TaskState,
    startedAt: Timestamp,
    finishedAt: Option<Timestamp>,
    progress: Option<Progress>,
    summary: string,
    detail: Text,
    cancellable: bool,
    requestedFields: seq<string>,
    redactedArgv: seq<string>,
    exitStatus: Option<int>,
    verification: Option<string>,
    changes: seq<TaskChange>)

  function NewTask(id: TaskId, recordId: RecordId, actionId: ActionId, targetLabel: string,
                   startedAt: Timestamp, cancellable: bool): Task
  {
    Task(id, recordId, actionId, targetLabel, Queued, startedAt, None, None, "queued", [], cancellable, [], [],
         None, None, [])
  }

  /** `append_detail`. */
  function WithDetail(task: Task, detail: Text): Task {
    if detail == [] then task
    else task.(detail := Detail.BoundedEnds(Detail.Extended(task.detail, detail), DETAIL_CAP))
  }

  /** Detail is added on a new line, whole while it fits the cap and otherwise cut to its two ends. */
  lemma DetailIsAppended(task: Task, detail: Text)
    ensures Detail.Extended(task.detail, detail) == if task.detail == [] then detail else task.detail + [0x0A] + detail
    ensures var combined := Detail.Extended(task.detail, detail);
            var after := WithDetail(task, detail);
            && after == task.(detail := after.detail)
            && (detail == [] ==> after == task)
            && (detail != [] && |combined| <= DETAIL_CAP ==> after.detail == combined)
            && (detail != [] && |combined| > DETAIL_CAP ==> Detail.CutToEnds(combined, DETAIL_CAP, after.detail))
  {
    hide Decode;
    Detail.BoundedEndsExact(Detail.Extended(task.detail, detail), DETAIL_CAP);
    assert task.detail + ([0x0A] + detail) == task.detail + [0x0A] + detail;
  }

  // ----- single changes

  datatype Change =
    | Start
    | Report(progress: Progress, detail: Text)
    | RequestCancel
    | Finish(outcome: TaskState, at: Timestamp, summary: string, detail: Text)
    | SetChanges(changes: seq<TaskChange>)
    | SetLocalMetadata(requestedFields: seq<string>, redactedArgv: seq<string>)
    | SetExitStatus(exitStatus: Option<int>)
    | SetVerification(verification: string)

  /** The task after a change, or `None` when its state does not allow the change. */
  function Changed(task: Task, change: Change): Option<Task> {
    match change
    case Start =>
      if task.state.Queued? then Some(task.(state := Running, summary := "running")) else None
    case Report(progress, detail) =>
      if task.state.Running? || task.state.Cancelling? then Some(WithDetail(task.(progress := Some(progress)), detail))
      else None
    case RequestCancel =>
      if (task.state.Queued? || task.state.Running?) && task.cancellable
      then Some(task.(state := Cancelling, summary := "cancelling")) else None
    case Finish(outcome, at, summary, detail) =>
      if task.state.IsTerminal() || task.state.Queued? then None
      else Some(WithDetail(task.(state := outcome, finishedAt := Some(at), summary := summary), detail))
    case SetChanges(changes) => Some(task.(changes := changes))
    case SetLocalMetadata(requestedFields, redactedArgv) =>
      Some(task.(requestedFields := requestedFields, redactedArgv := redactedArgv))
    case SetExitStatus(exitStatus) => Some(task.(exitStatus := exitStatus))
    case SetVerification(verification) => Some(task.(verification := Some(verification)))
  }

  /** The outcomes a task is finished with; `Interrupted` only comes from a restored history. */
  predicate IsOutcome(state: TaskState) {
    state.Succeeded? || state.Failed? || state.Cancelled?
  }

  predicate IsProper(change: Change) {
    change.Finish? ==> IsOutcome(change.outcome)
  }

  /** How far along a state is. */
  function Stage(state: TaskState): nat {
    if state.Queued? then 0 else if state.Running? then 1 else if state.Cancelling? then 2 else 3
  }

  /**
    `after` is a later moment of `before`: its state is the same or further along, and what a finished task says
    of its end is settled.
   */
  predicate Advances(before: Task, after: Task) {
    && after.id == before.id && after.recordId == before.recordId
    && after.actionId == before.actionId && after.targetLabel == before.targetLabel
    && after.startedAt == before.startedAt && after.cancellable == before.cancellable
    && (after.state == before.state || Stage(before.state) < Stage(after.state))
    && (before.state.IsTerminal() ==>
          && after.state == before.state && after.finishedAt == before.finishedAt
          && after.summary == before.summary && after.detail == before.detail && after.progress == before.progress)
  }

  /** A task created in this session has an end time exactly when it has ended, and a bounded detail. */
  predicate IsSound(task: Task) {
    && (task.finishedAt.Some? <==> task.state.IsTerminal())
    && |task.detail| <= DETAIL_CAP
  }

  lemma ChangesAdvance(task: Task, change: Change)
    requires IsProper(change) && Changed(task, change).Some?
    ensures Advances(task, Changed(task, change).value)
    ensures IsSound(task) ==> IsSound(Changed(task, change).value)
  {
    hide Detail.BoundedEnds, Detail.Extended, Decode;
    if change.Report? {
      Detail.BoundedEndsExact(Detail.Extended(task.detail, change.detail), DETAIL_CAP);
    } else if change.Finish? {
      Detail.BoundedEndsExact(Detail.Extended(task.detail, change.detail), DETAIL_CAP);
    }
  }

  lemma AdvancesTransitive(a: Task, b: Task, c: Task)
    requires Advances(a, b) && Advances(b, c)
    ensures Advances(a, c)
  {
  }

  // ----- what each change puts in the task, and what it leaves alone

  lemma StartingRuns(task: Task)
    ensures Changed(task, Start).Some? <==> task.state == Queued
    ensures task.state == Queued ==>
              var after := Changed(task, Start).value;
              && after.state == Running && after.summary == "running"
              && after == task.(state := after.state, summary := after.summary)
  {
  }

  /** Progress is taken while the task runs or is being cancelled, with the detail added to what there is. */
  lemma ReportingIsTaken(task: Task, progress: Progress, detail: Text)
    ensures Changed(task, Report(progress, detail)).Some? <==> task.state in {Running, Cancelling}
    ensures task.state in {Running, Cancelling} ==>
              var after := Changed(task, Report(progress, detail)).value;
              && after.progress == Some(progress) && after.detail == WithDetail(task, detail).detail
              && after == task.(progress := after.progress, detail := after.detail)
  {
    DetailIsAppended(task, detail);
  }

  lemma CancellingIsAsked(task: Task)
    ensures Changed(task, RequestCancel).Some? <==> task.cancellable && task.state in {Queued, Running}
    ensures task.cancellable && task.state in {Queued, Running} ==>
              var after := Changed(task, RequestCancel).value;
              && after.state == Cancelling && after.summary == "cancelling"
              && after == task.(state := after.state, summary := after.summary)
  {
  }

  /** A task is finished from running or cancelling, with this very outcome, end time and summary. */
  lemma FinishingSettles(task: Task, outcome: TaskState, at: Timestamp, summary: string, detail: Text)
    ensures Changed(task, Finish(outcome, at, summary, detail)).Some? <==> task.state in {Running, Cancelling}
    ensures task.state in {Running, Cancelling} ==>
              var after := Changed(task, Finish(outcome, at, summary, detail)).value;
              && after.state == outcome && after.finishedAt == Some(at) && after.summary == summary
              && after.detail == WithDetail(task, detail).detail
              && after == task.(state := after.state, finishedAt := after.finishedAt, summary := after.summary,
                                detail := after.detail)
  {
    DetailIsAppended(task, detail);
  }

  /** The setters ask nothing of the state and set their own fields only. */
  lemma SettersSet(task: Task, changes: seq<TaskChange>, fields: seq<string>, argv: seq<string>,
                   exitStatus: Option<int>, verification: string)
    ensures var after := Changed(task, SetChanges(changes));
            after.Some? && after.value.changes == changes && after.value == task.(changes := after.value.changes)
    ensures var after := Changed(task, SetLocalMetadata(fields, argv));
            && after.Some? && after.value.requestedFields == fields && after.value.redactedArgv == argv
            && after.value == task.(requestedFields := after.value.requestedFields,
                                    redactedArgv := after.value.redactedArgv)
    ensures var after := Changed(task, SetExitStatus(exitStatus));
            && after.Some? && after.value.exitStatus == exitStatus
            && after.value == task.(exitStatus := after.value.exitStatus)
    ensures var after := Changed(task, SetVerification(verification));
            && after.Some? && after.value.verification == Some(verification)
            && after.value == task.(verification := after.value.verification)
  {
  }
}
