/**
  The task store (src/task.rs): the tasks of this session and of the restored history, which of them have
  changed since they were last taken for persisting, which were created in this session, and the selected one.
 */
module TaskStore {
  import opened Wrappers
  import opened Utf8
  import opened Indices
  import opened Tasks

  const U64_MAX: nat := 0xFFFF_FFFF_FFFF_FFFF

  /** `u64::saturating_add(1)`. */
  function Successor(n: nat): nat {
    if n < U64_MAX then n + 1 else U64_MAX
  }

  // ----- the specification, on values

  datatype Store = Store(tasks: seq<Task>, nextId: nat, dirty: set<RecordId>,
                         session: set<TaskId>, selected: Option<TaskId>)

  /** The first task with this id, or the length. */
  function IndexOf(tasks: seq<Task>, id: TaskId): (i: nat)
    ensures i <= |tasks|
    ensures i < |tasks| ==> tasks[i].id == id
    ensures forall k :: 0 <= k < i ==> tasks[k].id != id
  {
    if tasks == [] || tasks[0].id == id then 0 else 1 + IndexOf(tasks[1..], id)
  }

  function RecordIds(tasks: seq<Task>): set<RecordId> {
    set k | 0 <= k < |tasks| :: tasks[k].recordId
  }

  function Ids(tasks: seq<Task>): set<TaskId> {
    set k | 0 <= k < |tasks| :: tasks[k].id
  }

  function LastId(tasks: seq<Task>): Option<TaskId> {
    if tasks == [] then None else Some(tasks[|tasks| - 1].id)
  }

  function Created(s: Store, recordId: RecordId, actionId: ActionId, targetLabel: string,
                   startedAt: Timestamp, cancellable: bool): Store
  {
    Store(s.tasks + [NewTask(s.nextId, recordId, actionId, targetLabel, startedAt, cancellable)], Successor(s.nextId),
          s.dirty + {recordId}, s.session + {s.nextId}, if s.selected.None? then Some(s.nextId) else s.selected)
  }

  /** The store after a change to one task; a change that is not allowed, or of no task, does nothing. */
  function TaskChanged(s: Store, id: TaskId, change: Change): Store {
    var i := IndexOf(s.tasks, id);
    if i < |s.tasks| && Changed(s.tasks[i], change).Some?
    then s.(tasks := s.tasks[i := Changed(s.tasks[i], change).value], dirty := s.dirty + {s.tasks[i].recordId})
    else s
  }

  predicate CanChange(s: Store, id: TaskId, change: Change) {
    var i := IndexOf(s.tasks, id);
    i < |s.tasks| && Changed(s.tasks[i], change).Some?
  }

  function DirtyTasks(tasks: seq<Task>, dirty: set<RecordId>): seq<Task> {
    if tasks == [] then []
    else if tasks[0].recordId in dirty then [tasks[0]] + DirtyTasks(tasks[1..], dirty)
    else DirtyTasks(tasks[1..], dirty)
  }

  /** The restored tasks whose records are not known yet, in order. */
  function Unknown(restored: seq<Task>, known: set<RecordId>): seq<Task> {
    if restored == [] then []
    else if restored[0].recordId in known then Unknown(restored[1..], known)
    else [restored[0]] + Unknown(restored[1..], known)
  }

  /** The same tasks with ids from `next` on, and the next id after them. */
  function Renumbered(tasks: seq<Task>, next: nat): (r: (seq<Task>, nat))
    ensures |r.0| == |tasks|
  {
    if tasks == [] then ([], next)
    else
      var rest := Renumbered(tasks[1..], Successor(next));
      ([tasks[0].(id := next)] + rest.0, rest.1)
  }

  function Merged(s: Store, restored: seq<Task>): Store {
    var (numbered, next) := Renumbered(Unknown(restored, RecordIds(s.tasks)), s.nextId);
    var tasks := numbered + s.tasks;
    s.(tasks := tasks, nextId := next, selected := if s.selected.None? then LastId(tasks) else s.selected)
  }

  function Terminals(tasks: seq<Task>): seq<Task> {
    if tasks == [] then []
    else if tasks[0].state.IsTerminal() then [tasks[0]] + Terminals(tasks[1..])
    else Terminals(tasks[1..])
  }

  function Actives(tasks: seq<Task>): seq<Task> {
    if tasks == [] then []
    else if tasks[0].state.IsTerminal() then Actives(tasks[1..])
    else [tasks[0]] + Actives(tasks[1..])
  }

  /** Without the first `remove` terminal tasks. */
  function Without(tasks: seq<Task>, remove: nat): seq<Task> {
    if tasks == [] then []
    else if remove == 0 || !tasks[0].state.IsTerminal() then [tasks[0]] + Without(tasks[1..], remove)
    else Without(tasks[1..], remove - 1)
  }

  function Surplus(tasks: seq<Task>, max: nat): nat {
    if |Terminals(tasks)| > max then |Terminals(tasks)| - max else 0
  }

  function Evicted(s: Store, max: nat): Store {
    var remove := Surplus(s.tasks, max);
    if remove == 0 then s
    else
      var tasks := Without(s.tasks, remove);
      s.(tasks := tasks, session := s.session * Ids(tasks),
         selected := if s.selected.Some? && s.selected.value !in Ids(tasks) then LastId(tasks) else s.selected)
  }

  // ----- selection

  function FilteredIds(tasks: seq<Task>, query: Task -> bool): seq<TaskId> {
    if tasks == [] then []
    else if query(tasks[0]) then [tasks[0].id] + FilteredIds(tasks[1..], query)
    else FilteredIds(tasks[1..], query)
  }

  function FirstPosition(ids: seq<TaskId>, id: TaskId): (i: nat)
    requires id in ids
    ensures i < |ids| && ids[i] == id && forall k :: 0 <= k < i ==> ids[k] != id
  {
    if ids[0] == id then 0 else 1 + FirstPosition(ids[1..], id)
  }

  /** Where `selected` is among the ids, or at the first. */
  function Position(ids: seq<TaskId>, selected: Option<TaskId>): (i: nat)
    requires ids != []
    ensures i < |ids|
  {
    if selected.Some? && selected.value in ids then FirstPosition(ids, selected.value) else 0
  }

  datatype Choice = At(position: nat) | Last | Step(offset: int)

  function Choose(ids: seq<TaskId>, selected: Option<TaskId>, choice: Choice): Option<TaskId> {
    match choice
    case At(position) => if position < |ids| then Some(ids[position]) else None
    case Last => if ids == [] then None else Some(ids[|ids| - 1])
    case Step(offset) => if ids == [] then None else Some(ids[Clamp(Position(ids, selected) + offset, |ids|)])
  }

  function Selected(s: Store, query: Task -> bool, choice: Choice): Store {
    s.(selected := Choose(FilteredIds(s.tasks, query), s.selected, choice))
  }

  // ----- the store itself

  lemma {:induction false} IndexIsFirst(tasks: seq<Task>, id: TaskId, i: nat)
    requires i <= |tasks|
    requires forall k :: 0 <= k < i ==> tasks[k].id != id
    requires i < |tasks| ==> tasks[i].id == id
    ensures IndexOf(tasks, id) == i
  {
    if i > 0 {
      IndexIsFirst(tasks[1..], id, i - 1);
    }
  }

  class TaskStore {
    var tasks: seq<Task>
    var nextId: nat
    var dirty: set<RecordId>
    var session: set<TaskId>
    var selected: Option<TaskId>

    function Model(): Store
      reads this
    {
      Store(tasks, nextId, dirty, session, selected)
    }

    constructor ()
      ensures Model() == Store([], 1, {}, {}, None)
    {
      tasks, nextId, dirty, session, selected := [], 1, {}, {}, None;
    }

    /** The record id is drawn outside: a new version 7 UUID. */
    method Create(recordId: RecordId, actionId: ActionId, targetLabel: string,
                  startedAt: Timestamp, cancellable: bool)
      returns (id: TaskId)
      modifies this
      ensures Model() == Created(old(Model()), recordId, actionId, targetLabel, startedAt, cancellable)
      ensures id == old(nextId)
    {
      hide Decode;
      id := nextId;
      nextId := Successor(nextId);
      tasks := tasks + [NewTask(id, recordId, actionId, targetLabel, startedAt, cancellable)];
      dirty := dirty + {recordId};
      session := session + {id};
      if selected.None? {
        selected := Some(id);
      }
    }

    /** The search behind `get` and `get_mut`. */
    method Find(id: TaskId) returns (i: nat)
      ensures i == IndexOf(tasks, id)
    {
      hide Decode;
      i := 0;
      while i < |tasks| && tasks[i].id != id
        invariant i <= |tasks|
        invariant forall k :: 0 <= k < i ==> tasks[k].id != id
      {
        i := i + 1;
      }
      IndexIsFirst(tasks, id, i);
    }

    method MarkDirty(id: TaskId)
      modifies this`dirty
      ensures dirty == old(dirty) + (if IndexOf(tasks, id) < |tasks| then {tasks[IndexOf(tasks, id)].recordId} else {})
    {
      hide Decode;
      var i := Find(id);
      if i < |tasks| {
        dirty := dirty + {tasks[i].recordId};
      }
    }

    /** Writes a task back in place and marks it. */
    method Update(i: nat, task: Task)
      requires i < |tasks| && i == IndexOf(tasks, tasks[i].id)
      requires task.id == tasks[i].id && task.recordId == tasks[i].recordId
      modifies this`tasks, this`dirty
      ensures tasks == old(tasks)[i := task] && dirty == old(dirty) + {task.recordId}
    {
      hide Decode;
      tasks := tasks[i := task];
      IndexIsFirst(tasks, task.id, i);
      MarkDirty(task.id);
    }

    method Start(id: TaskId) returns (done: bool)
      modifies this
      ensures Model() == TaskChanged(old(Model()), id, Change.Start)
      ensures done == CanChange(old(Model()), id, Change.Start)
    {
      hide Decode;
      var i := Find(id);
      if i == |tasks| || !tasks[i].state.Queued? {
        return false;
      }
      Update(i, tasks[i].(state := Running, summary := "running"));
      return true;
    }

    method Report(id: TaskId, progress: Progress, detail: Text) returns (done: bool)
      modifies this
      ensures Model() == TaskChanged(old(Model()), id, Change.Report(progress, detail))
      ensures done == CanChange(old(Model()), id, Change.Report(progress, detail))
    {
      hide Decode;
      var i := Find(id);
      if i == |tasks| || !(tasks[i].state.Running? || tasks[i].state.Cancelling?) {
        return false;
      }
      Update(i, WithDetail(tasks[i].(progress := Some(progress)), detail));
      return true;
    }

    /** Also true when the task was being cancelled already. */
    method RequestCancel(id: TaskId) returns (done: bool)
      modifies this
      ensures Model() == TaskChanged(old(Model()), id, Change.RequestCancel)
      ensures done <==> var i := IndexOf(tasks, id); i < |tasks| && tasks[i].state.Cancelling?
    {
      hide Decode;
      var i := Find(id);
      if i == |tasks| {
        return false;
      }
      if (tasks[i].state.Queued? || tasks[i].state.Running?) && tasks[i].cancellable {
        Update(i, tasks[i].(state := Cancelling, summary := "cancelling"));
        IndexIsFirst(tasks, id, i);
        return true;
      }
      return tasks[i].state.Cancelling?;
    }

    method Finish(id: TaskId, outcome: TaskState, at: Timestamp, summary: string, detail: Text) returns (done: bool)
      modifies this
      ensures Model() == TaskChanged(old(Model()), id, Change.Finish(outcome, at, summary, detail))
      ensures done == CanChange(old(Model()), id, Change.Finish(outcome, at, summary, detail))
    {
      hide Decode;
      var i := Find(id);
      if i == |tasks| || tasks[i].state.IsTerminal() || tasks[i].state.Queued? {
        return false;
      }
      Update(i, WithDetail(tasks[i].(state := outcome, finishedAt := Some(at), summary := summary), detail));
      return true;
    }

    method SetChanges(id: TaskId, changes: seq<TaskChange>) returns (done: bool)
      modifies this
      ensures Model() == TaskChanged(old(Model()), id, Change.SetChanges(changes))
      ensures done == CanChange(old(Model()), id, Change.SetChanges(changes))
    {
      hide Decode;
      var i := Find(id);
      if i == |tasks| {
        return false;
      }
      Update(i, tasks[i].(changes := changes));
      return true;
    }

    method SetLocalMetadata(id: TaskId, requestedFields: seq<string>, redactedArgv: seq<string>) returns (done: bool)
      modifies this
      ensures Model() == TaskChanged(old(Model()), id, Change.SetLocalMetadata(requestedFields, redactedArgv))
      ensures done == CanChange(old(Model()), id, Change.SetLocalMetadata(requestedFields, redactedArgv))
    {
      hide Decode;
      var i := Find(id);
      if i == |tasks| {
        return false;
      }
      Update(i, tasks[i].(requestedFields := requestedFields, redactedArgv := redactedArgv));
      return true;
    }

    method SetExitStatus(id: TaskId, exitStatus: Option<int>) returns (done: bool)
      modifies this
      ensures Model() == TaskChanged(old(Model()), id, Change.SetExitStatus(exitStatus))
      ensures done == CanChange(old(Model()), id, Change.SetExitStatus(exitStatus))
    {
      hide Decode;
      var i := Find(id);
      if i == |tasks| {
        return false;
      }
      Update(i, tasks[i].(exitStatus := exitStatus));
      return true;
    }

    method SetVerification(id: TaskId, verification: string) returns (done: bool)
      modifies this
      ensures Model() == TaskChanged(old(Model()), id, Change.SetVerification(verification))
      ensures done == CanChange(old(Model()), id, Change.SetVerification(verification))
    {
      hide Decode;
      var i := Find(id);
      if i == |tasks| {
        return false;
      }
      Update(i, tasks[i].(verification := Some(verification)));
      return true;
    }

    method TakeDirty() returns (batch: seq<Task>)
      modifies this`dirty
      ensures dirty == {} && batch == DirtyTasks(tasks, old(dirty))
    {
      hide Decode;
      var taken := dirty;
      dirty := {};
      batch := [];
      var i := 0;
      while i < |tasks|
        invariant i <= |tasks|
        invariant batch + DirtyTasks(tasks[i..], taken) == DirtyTasks(tasks, taken)
      {
        assert tasks[i..][0] == tasks[i] && tasks[i..][1..] == tasks[i + 1..];
        if tasks[i].recordId in taken {
          batch := batch + [tasks[i]];
        }
        i := i + 1;
      }
    }

    /** `retain` on the restored tasks. */
    static method RetainUnknown(restored: seq<Task>, known: set<RecordId>) returns (kept: seq<Task>)
      ensures kept == Unknown(restored, known)
    {
      hide Decode;
      kept := [];
      var i := 0;
      while i < |restored|
        invariant i <= |restored|
        invariant kept + Unknown(restored[i..], known) == Unknown(restored, known)
      {
        assert restored[i..][0] == restored[i] && restored[i..][1..] == restored[i + 1..];
        if restored[i].recordId !in known {
          kept := kept + [restored[i]];
        }
        i := i + 1;
      }
    }

    /** Gives each task the next id. */
    method Number(kept: seq<Task>) returns (numbered: seq<Task>)
      modifies this`nextId
      ensures (numbered, nextId) == Renumbered(kept, old(nextId))
    {
      hide Decode;
      numbered := [];
      ghost var all := Renumbered(kept, nextId);
      var i := 0;
      while i < |kept|
        invariant i <= |kept|
        invariant numbered + Renumbered(kept[i..], nextId).0 == all.0
        invariant Renumbered(kept[i..], nextId).1 == all.1
      {
        assert kept[i..][0] == kept[i] && kept[i..][1..] == kept[i + 1..];
        numbered := numbered + [kept[i].(id := nextId)];
        nextId := Successor(nextId);
        i := i + 1;
      }
      assert numbered == all.0;
    }

    method MergeRestored(restored: seq<Task>)
      modifies this
      ensures Model() == Merged(old(Model()), restored)
    {
      hide Unknown, Renumbered;
      var kept := RetainUnknown(restored, RecordIds(tasks));
      var numbered := Number(kept);
      tasks := numbered + tasks;
      if selected.None? {
        selected := LastId(tasks);
      }
    }

    method CountCompleted() returns (completed: nat)
      ensures completed == |Terminals(tasks)|
    {
      hide Decode;
      completed := 0;
      var i := 0;
      while i < |tasks|
        invariant i <= |tasks| && completed + |Terminals(tasks[i..])| == |Terminals(tasks)|
      {
        assert tasks[i..][0] == tasks[i] && tasks[i..][1..] == tasks[i + 1..];
        if tasks[i].state.IsTerminal() {
          completed := completed + 1;
        }
        i := i + 1;
      }
    }

    /** `retain`, with its counter of how many are still to go. */
    method Retain(surplus: nat) returns (kept: seq<Task>)
      ensures kept == Without(tasks, surplus)
    {
      hide Decode;
      var remove := surplus;
      kept := [];
      var i := 0;
      while i < |tasks|
        invariant i <= |tasks|
        invariant kept + Without(tasks[i..], remove) == Without(tasks, surplus)
      {
        assert tasks[i..][0] == tasks[i] && tasks[i..][1..] == tasks[i + 1..];
        if remove == 0 || !tasks[i].state.IsTerminal() {
          kept := kept + [tasks[i]];
        } else {
          remove := remove - 1;
        }
        i := i + 1;
      }
    }

    method EvictCompleted(max: nat)
      modifies this
      ensures Model() == Evicted(old(Model()), max)
    {
      hide Without, Terminals;
      var completed := CountCompleted();
      var remove := if completed > max then completed - max else 0;
      if remove == 0 {
        return;
      }
      tasks := Retain(remove);
      session := session * Ids(tasks);
      if selected.Some? {
        var at := Find(selected.value);
        if at == |tasks| {
          assert selected.value !in Ids(tasks);
          selected := LastId(tasks);
        } else {
          assert tasks[at].id == selected.value;
        }
      }
    }

    /** `filtered_ids`. */
    method Filtered(query: Task -> bool) returns (ids: seq<TaskId>)
      ensures ids == FilteredIds(tasks, query)
    {
      hide Decode;
      ids := [];
      var i := 0;
      while i < |tasks|
        invariant i <= |tasks|
        invariant ids + FilteredIds(tasks[i..], query) == FilteredIds(tasks, query)
      {
        assert tasks[i..][0] == tasks[i] && tasks[i..][1..] == tasks[i + 1..];
        if query(tasks[i]) {
          ids := ids + [tasks[i].id];
        }
        i := i + 1;
      }
    }

    /** `select_filtered_position`, `_first`, `_last` and `select_next_filtered`; without a query, `select_next`. */
    method Select(query: Task -> bool, choice: Choice)
      modifies this`selected
      ensures Model() == Selected(old(Model()), query, choice)
    {
      var ids := Filtered(query);
      match choice {
        case At(position) =>
          selected := if position < |ids| then Some(ids[position]) else None;
        case Last =>
          selected := if ids == [] then None else Some(ids[|ids| - 1]);
        case Step(offset) =>
          if ids == [] {
            selected := None;
            return;
          }
          var current := if selected.Some? && selected.value in ids then FirstPosition(ids, selected.value) else 0;
          var next := if offset < 0 then (if current < -offset then 0 else current + offset)
                      else if current + offset < |ids| - 1 then current + offset else |ids| - 1;
          selected := Some(ids[next]);
      }
    }
  }
}
