/**
  What runs of the task store keep: the store's own invariant, the life of each task, and the agreement of the
  persisted history with the tasks in memory (src/task.rs; drained by `App::update` in src/app.rs).
 */
module TaskHistory {
  import opened Wrappers
  import opened Utf8
  import opened Indices
  import opened Tasks
  import opened TaskStore

  datatype Op =
    | Create(recordId: RecordId, actionId: ActionId, targetLabel: string, startedAt: Timestamp, cancellable: bool)
    | ChangeTask(id: TaskId, change: Change)
    | Merge(restored: seq<Task>)
    | Evict(max: nat)
    | Select(query: Task -> bool, choice: Choice)

  function Applied(s: Store, op: Op): Store {
    match op
    case Create(recordId, actionId, targetLabel, startedAt, cancellable) =>
      Created(s, recordId, actionId, targetLabel, startedAt, cancellable)
    case ChangeTask(id, change) => TaskChanged(s, id, change)
    case Merge(restored) => Merged(s, restored)
    case Evict(max) => Evicted(s, max)
    case Select(query, choice) => Selected(s, query, choice)
  }

  // ----- the invariant

  predicate DistinctRecords(tasks: seq<Task>) {
    forall i, j :: 0 <= i < j < |tasks| ==> tasks[i].recordId != tasks[j].recordId
  }

  predicate DistinctIdsBelow(tasks: seq<Task>, next: nat) {
    && (forall i, j :: 0 <= i < j < |tasks| ==> tasks[i].id != tasks[j].id)
    && (forall i :: 0 <= i < |tasks| ==> tasks[i].id < next)
  }

  predicate Valid(s: Store) {
    && s.nextId <= U64_MAX
    && DistinctIdsBelow(s.tasks, s.nextId)
    && DistinctRecords(s.tasks)
    && s.session <= Ids(s.tasks)
    && (s.selected.Some? ==> s.selected.value in Ids(s.tasks))
    && (forall i :: 0 <= i < |s.tasks| && s.tasks[i].id in s.session ==> IsSound(s.tasks[i]))
  }

  /** What an operation needs: a new record id that is new, restored records that are distinct, and ids not used up. */
  predicate Lawful(s: Store, op: Op) {
    match op
    case Create(recordId, _, _, _, _) => s.nextId < U64_MAX && recordId !in RecordIds(s.tasks)
    case ChangeTask(_, change) => IsProper(change)
    case Merge(restored) =>
      var unknown := Unknown(restored, RecordIds(s.tasks));
      DistinctRecords(unknown) && s.nextId + |unknown| <= U64_MAX
    case _ => true
  }

  /** Creating keeps the invariant exactly until the ids run out, for a record id that is new. */
  lemma CreatingKeepsValidExactly(s: Store, recordId: RecordId, actionId: ActionId, targetLabel: string,
                                  startedAt: Timestamp, cancellable: bool)
    requires Valid(s)
    ensures Valid(Created(s, recordId, actionId, targetLabel, startedAt, cancellable))
            <==> s.nextId < U64_MAX && recordId !in RecordIds(s.tasks)
  {
    hide Decode;
    var s' := Created(s, recordId, actionId, targetLabel, startedAt, cancellable);
    var n := |s.tasks|;
    assert s'.tasks[n].id == s.nextId && s'.tasks[n].recordId == recordId;
    assert forall i :: 0 <= i < n ==> s'.tasks[i] == s.tasks[i];
    assert Ids(s'.tasks) == Ids(s.tasks) + {s.nextId} by {
      assert forall i :: 0 <= i < n ==> s.tasks[i] == s'.tasks[i];
    }
    if recordId in RecordIds(s.tasks) {
      var k :| 0 <= k < n && s.tasks[k].recordId == recordId;
      assert s'.tasks[k].recordId == s'.tasks[n].recordId;
    }
  }

  lemma SameNames(a: seq<Task>, b: seq<Task>)
    requires |a| == |b|
    requires forall k :: 0 <= k < |a| ==> b[k].id == a[k].id && b[k].recordId == a[k].recordId
    ensures Ids(a) == Ids(b) && RecordIds(a) == RecordIds(b)
  {
    assert forall k :: 0 <= k < |a| ==> a[k].id == b[k].id && a[k].recordId == b[k].recordId;
  }

  /** A new task is queued, last, under the next id; it is marked, of this session, and selected if nothing was. */
  lemma CreatingQueues(s: Store, recordId: RecordId, actionId: ActionId, targetLabel: string,
                       startedAt: Timestamp, cancellable: bool)
    ensures var s' := Created(s, recordId, actionId, targetLabel, startedAt, cancellable);
            && |s'.tasks| == |s.tasks| + 1 && s'.tasks[..|s.tasks|] == s.tasks
            && var t := s'.tasks[|s.tasks|];
               && t.id == s.nextId && t.recordId == recordId && t.actionId == actionId
               && t.targetLabel == targetLabel && t.startedAt == startedAt && t.cancellable == cancellable
               && t.state == Queued && t.summary == "queued" && t.detail == []
               && t.finishedAt == None && t.progress == None && t.exitStatus == None && t.verification == None
               && t.requestedFields == [] && t.redactedArgv == [] && t.changes == []
               && s'.dirty == s.dirty + {recordId} && s'.session == s.session + {t.id}
               && s'.selected == (if s.selected.Some? then s.selected else Some(t.id))
  {
  }

  /** What each change asks of the task. */
  predicate TakesChange(task: Task, change: Change) {
    match change
    case Start => task.state == Queued
    case Report(_, _) => task.state in {Running, Cancelling}
    case RequestCancel => task.cancellable && task.state in {Queued, Running}
    case Finish(_, _, _, _) => task.state in {Running, Cancelling}
    case _ => true
  }

  lemma TakesChangeExactly(task: Task, change: Change)
    ensures Changed(task, change).Some? <==> TakesChange(task, change)
  {
    hide Decode;
  }

  /** When a change is taken: when there is a task with the id, and by its state. */
  lemma CanChangeExactly(s: Store, id: TaskId, change: Change)
    requires Valid(s)
    ensures CanChange(s, id, change) <==>
              exists i :: 0 <= i < |s.tasks| && s.tasks[i].id == id && TakesChange(s.tasks[i], change)
  {
    hide IsSound, DistinctRecords, Decode, TakesChange;
    var at := IndexOf(s.tasks, id);
    if at < |s.tasks| {
      TakesChangeExactly(s.tasks[at], change);
    }
  }

  /** A change touches the task with the id, and marks it, when its state allows; nothing else changes. */
  lemma ChangingTouchesOne(s: Store, id: TaskId, change: Change, i: nat)
    requires Valid(s) && i < |s.tasks| && s.tasks[i].id == id
    ensures var s' := TaskChanged(s, id, change);
            if Changed(s.tasks[i], change).None? then s' == s
            else
              && s'.tasks[i] == Changed(s.tasks[i], change).value
              && s' == s.(tasks := s.tasks[i := s'.tasks[i]], dirty := s.dirty + {s.tasks[i].recordId})
  {
    hide Changed, IsSound, Decode;
    assert IndexOf(s.tasks, id) == i;
  }

  lemma ChangingNoneChangesNothing(s: Store, id: TaskId, change: Change)
    requires id !in Ids(s.tasks)
    ensures TaskChanged(s, id, change) == s
  {
    hide Changed, Decode;
    var i := IndexOf(s.tasks, id);
  }

  lemma ChangingKeepsValid(s: Store, id: TaskId, change: Change)
    requires Valid(s) && IsProper(change)
    ensures Valid(TaskChanged(s, id, change))
    ensures RecordIds(TaskChanged(s, id, change).tasks) == RecordIds(s.tasks)
    ensures forall k :: 0 <= k < |s.tasks| ==> Advances(s.tasks[k], TaskChanged(s, id, change).tasks[k])
  {
    hide Changed, IsSound;
    var i := IndexOf(s.tasks, id);
    if i < |s.tasks| && Changed(s.tasks[i], change).Some? {
      ChangesAdvance(s.tasks[i], change);
      var tasks := TaskChanged(s, id, change).tasks;
      assert forall k :: 0 <= k < |tasks| ==> tasks[k].id == s.tasks[k].id && tasks[k].recordId == s.tasks[k].recordId;
      SameNames(s.tasks, tasks);
    }
  }

  lemma RecordIdsOf(tasks: seq<Task>)
    requires tasks != []
    ensures RecordIds(tasks) == {tasks[0].recordId} + RecordIds(tasks[1..])
  {
    assert forall k :: 0 <= k < |tasks[1..]| ==> tasks[1..][k] == tasks[k + 1];
    assert forall k :: 0 < k < |tasks| ==> tasks[k] == tasks[1..][k - 1];
  }

  // ----- merging

  /** What is persisted of a task: all but the id it has in this session. */
  function Row(task: Task): Task {
    task.(id := 0)
  }

  /** Two tasks have the same row exactly when nothing but their ids differs. */
  lemma RowIsAllButTheId(a: Task, b: Task)
    ensures Row(a) == Row(b) <==> a == b.(id := a.id)
  {
  }

  lemma {:induction false} RenumberedTasks(tasks: seq<Task>, next: nat)
    requires next <= U64_MAX
    ensures var (numbered, after) := Renumbered(tasks, next);
            && (forall k :: 0 <= k < |tasks| ==> Row(numbered[k]) == Row(tasks[k]))
            && (if next + |tasks| <= U64_MAX
                then after == next + |tasks| && forall k :: 0 <= k < |tasks| ==> numbered[k].id == next + k
                else after == U64_MAX && numbered[|tasks| - 1].id == U64_MAX)
    decreases |tasks|
  {
    hide Decode;
    if tasks != [] {
      RenumberedTasks(tasks[1..], Successor(next));
    }
  }

  lemma {:induction false} UnknownAreTheNewOnes(restored: seq<Task>, known: set<RecordId>)
    ensures var unknown := Unknown(restored, known);
            && (forall k :: 0 <= k < |unknown| ==> unknown[k] in restored && unknown[k].recordId !in known)
            && (forall k :: 0 <= k < |restored| && restored[k].recordId !in known ==> restored[k] in unknown)
            && (DistinctRecords(restored) ==> DistinctRecords(unknown))
    decreases |restored|
  {
    hide Decode;
    if restored != [] {
      var rest := Unknown(restored[1..], known);
      UnknownAreTheNewOnes(restored[1..], known);
      if DistinctRecords(restored) && restored[0].recordId !in known {
        forall k | 0 <= k < |rest|
          ensures rest[k].recordId != restored[0].recordId
        {
          assert rest[k] in restored[1..];
          var j :| 0 <= j < |restored[1..]| && restored[1..][j] == rest[k];
          assert restored[j + 1] == rest[k];
        }
      }
    }
  }

  /** A merge puts the unknown records in front under new ids. */
  lemma MergedTasks(s: Store, restored: seq<Task>)
    requires Valid(s) && Lawful(s, Merge(restored))
    ensures var s' := Merged(s, restored);
            var unknown := Unknown(restored, RecordIds(s.tasks));
            && |s'.tasks| == |unknown| + |s.tasks|
            && s'.tasks[|unknown|..] == s.tasks
            && (forall k :: 0 <= k < |unknown| ==>
                  Row(s'.tasks[k]) == Row(unknown[k]) && s'.tasks[k].id == s.nextId + k && s'.tasks[k].id !in s.session)
            && s'.nextId == s.nextId + |unknown|
            && s'.dirty == s.dirty && s'.session == s.session
            && (s.selected.Some? ==> s'.selected == s.selected)
  {
    var unknown := Unknown(restored, RecordIds(s.tasks));
    RenumberedTasks(unknown, s.nextId);
  }

  function IsUnknown(known: set<RecordId>): Task -> bool {
    (task: Task) => task.recordId !in known
  }

  lemma {:induction false} UnknownAreCounted(restored: seq<Task>, known: set<RecordId>)
    ensures |Unknown(restored, known)| == Count(restored, IsUnknown(known))
    decreases |restored|
  {
    hide Decode;
    if restored != [] {
      UnknownAreCounted(restored[1..], known);
    }
  }

  /** The unknown tasks keep their order. */
  lemma {:induction false} UnknownInOrder(restored: seq<Task>, known: set<RecordId>, p: nat)
    requires p < |restored| && restored[p].recordId !in known
    ensures var at := Count(restored[..p], IsUnknown(known));
            at < |Unknown(restored, known)| && Unknown(restored, known)[at] == restored[p]
    decreases |restored|
  {
    hide Decode;
    if p > 0 {
      UnknownInOrder(restored[1..], known, p - 1);
      CountFromSecond(restored, IsUnknown(known), p);
    }
  }

  lemma MergedSelection(s: Store, restored: seq<Task>)
    ensures var s' := Merged(s, restored);
            s'.selected == if s.selected.Some? || s'.tasks == [] then s.selected else Some(s'.tasks[|s'.tasks| - 1].id)
  {
  }

  /**
    A merge puts exactly the restored tasks with unknown records in front, in the order they came, under consecutive
    new ids, and leaves the tasks in memory and the bookkeeping alone.
   */
  lemma MergeConserves(s: Store, restored: seq<Task>)
    requires Valid(s) && Lawful(s, Merge(restored))
    ensures var isNew := IsUnknown(RecordIds(s.tasks));
            var n := Count(restored, isNew);
            var s' := Merged(s, restored);
            && |s'.tasks| == n + |s.tasks| && s'.tasks[n..] == s.tasks
            && (forall p :: 0 <= p < |restored| && restored[p].recordId !in RecordIds(s.tasks) ==>
                  && Count(restored[..p], isNew) < n
                  && Row(s'.tasks[Count(restored[..p], isNew)]) == Row(restored[p]))
            && (forall k :: 0 <= k < n ==> s'.tasks[k].id == s.nextId + k && s'.tasks[k].id !in s.session)
            && s'.nextId == s.nextId + n && s'.dirty == s.dirty && s'.session == s.session
            && s'.selected ==
                 if s.selected.Some? || s'.tasks == [] then s.selected else Some(s'.tasks[|s'.tasks| - 1].id)
  {
    hide Decode, Unknown, Merged, IsSound, DistinctRecords, DistinctIdsBelow, Count, RecordIds;
    var known := RecordIds(s.tasks);
    MergedTasks(s, restored);
    MergedSelection(s, restored);
    UnknownAreCounted(restored, known);
    forall p | 0 <= p < |restored| && restored[p].recordId !in known
      ensures Count(restored[..p], IsUnknown(known)) < Count(restored, IsUnknown(known))
      ensures Row(Merged(s, restored).tasks[Count(restored[..p], IsUnknown(known))]) == Row(restored[p])
    {
      UnknownInOrder(restored, known, p);
    }
  }

  lemma MergedRecordsAreDistinct(s: Store, restored: seq<Task>)
    requires Valid(s) && Lawful(s, Merge(restored))
    ensures DistinctRecords(Merged(s, restored).tasks)
  {
    hide Unknown, Renumbered, IsSound;
    var known := RecordIds(s.tasks);
    var unknown := Unknown(restored, known);
    var tasks := Merged(s, restored).tasks;
    var n := |unknown|;
    MergedTasks(s, restored);
    UnknownAreTheNewOnes(restored, known);
    forall i, j | 0 <= i < j < |tasks|
      ensures tasks[i].recordId != tasks[j].recordId
    {
      if i < n {
        assert Row(tasks[i]).recordId == Row(unknown[i]).recordId;
        if j < n { assert Row(tasks[j]).recordId == Row(unknown[j]).recordId; }
        else { assert s.tasks[j - n].recordId in known; }
      }
    }
  }

  /** Each merged task is a restored one under a new id, or one that was there. */
  lemma MergedTask(s: Store, restored: seq<Task>, k: nat)
    requires Valid(s) && Lawful(s, Merge(restored))
    requires k < |Merged(s, restored).tasks|
    ensures var task := Merged(s, restored).tasks[k];
            var n := |Merged(s, restored).tasks| - |s.tasks|;
            if k < n then task.id == s.nextId + k && task.id !in s.session else task == s.tasks[k - n]
  {
    hide Unknown, Renumbered, IsSound, DistinctRecords, Merged;
    MergedTasks(s, restored);
    var n := |Merged(s, restored).tasks| - |s.tasks|;
    if k >= n {
      assert Merged(s, restored).tasks[n..][k - n] == s.tasks[k - n];
    }
  }

  lemma MergedIdsAreDistinct(s: Store, restored: seq<Task>)
    requires Valid(s) && Lawful(s, Merge(restored))
    ensures DistinctIdsBelow(Merged(s, restored).tasks, Merged(s, restored).nextId)
    ensures Ids(s.tasks) <= Ids(Merged(s, restored).tasks)
  {
    hide Unknown, Renumbered, IsSound, DistinctRecords, Merged;
    var s' := Merged(s, restored);
    MergedTasks(s, restored);
    var n := |s'.tasks| - |s.tasks|;
    forall i, j | 0 <= i < j < |s'.tasks|
      ensures s'.tasks[i].id != s'.tasks[j].id
    {
      MergedTask(s, restored, i);
      MergedTask(s, restored, j);
    }
    forall i | 0 <= i < |s'.tasks|
      ensures s'.tasks[i].id < s'.nextId
    {
      MergedTask(s, restored, i);
    }
    forall id | id in Ids(s.tasks)
      ensures id in Ids(s'.tasks)
    {
      var k :| 0 <= k < |s.tasks| && s.tasks[k].id == id;
      MergedTask(s, restored, k + n);
      assert s'.tasks[k + n].id == id;
    }
  }

  lemma MergingKeepsValid(s: Store, restored: seq<Task>)
    requires Valid(s) && Lawful(s, Merge(restored))
    ensures Valid(Merged(s, restored))
  {
    hide Unknown, Renumbered, IsSound, DistinctRecords, DistinctIdsBelow;
    var s' := Merged(s, restored);
    MergedTasks(s, restored);
    MergedRecordsAreDistinct(s, restored);
    MergedIdsAreDistinct(s, restored);
    RenumberedTasks(Unknown(restored, RecordIds(s.tasks)), s.nextId);
    if s'.tasks != [] {
      assert s'.tasks[|s'.tasks| - 1].id in Ids(s'.tasks);
    }
    forall k | 0 <= k < |s'.tasks| && s'.tasks[k].id in s'.session
      ensures IsSound(s'.tasks[k])
    {
      MergedTask(s, restored, k);
    }
  }

  /** A merge keeps the invariant exactly while there are ids for the new records, and these are distinct. */
  lemma MergingKeepsValidExactly(s: Store, restored: seq<Task>)
    requires Valid(s)
    ensures Valid(Merged(s, restored)) <==> Lawful(s, Merge(restored))
  {
    hide Unknown, Renumbered, IsSound;
    var unknown := Unknown(restored, RecordIds(s.tasks));
    if Lawful(s, Merge(restored)) {
      MergingKeepsValid(s, restored);
    } else {
      var s' := Merged(s, restored);
      RenumberedTasks(unknown, s.nextId);
      if s.nextId + |unknown| > U64_MAX {
        assert s'.tasks[|unknown| - 1].id == U64_MAX == s'.nextId;
      } else {
        var i, j :| 0 <= i < j < |unknown| && unknown[i].recordId == unknown[j].recordId;
        assert Row(s'.tasks[i]) == Row(unknown[i]) && Row(s'.tasks[j]) == Row(unknown[j]);
        assert s'.tasks[i].recordId == s'.tasks[j].recordId;
      }
    }
  }

  // ----- eviction

  lemma {:induction false} NothingRemoved(tasks: seq<Task>)
    ensures Without(tasks, 0) == tasks
    decreases |tasks|
  {
    hide Decode;
    if tasks != [] {
      NothingRemoved(tasks[1..]);
    }
  }

  lemma {:induction false} WithoutCuts(tasks: seq<Task>, remove: nat) returns (cut: nat)
    requires remove <= |Terminals(tasks)|
    ensures cut <= |tasks| && |Terminals(tasks[..cut])| == remove
    ensures Without(tasks, remove) == Actives(tasks[..cut]) + tasks[cut..]
    decreases |tasks|
  {
    hide Decode;
    if remove == 0 {
      cut := 0;
      NothingRemoved(tasks);
    } else {
      var terminal := tasks[0].state.IsTerminal();
      var rest := WithoutCuts(tasks[1..], if terminal then remove - 1 else remove);
      cut := rest + 1;
      assert tasks[..cut][1..] == tasks[1..][..rest];
      assert tasks[cut..] == tasks[1..][rest..];
    }
  }

  lemma {:induction false} WithoutFilters(tasks: seq<Task>, remove: nat)
    requires remove <= |Terminals(tasks)|
    ensures Terminals(Without(tasks, remove)) == Terminals(tasks)[remove..]
    ensures Actives(Without(tasks, remove)) == Actives(tasks)
    decreases |tasks|
  {
    hide Decode;
    if remove == 0 {
      NothingRemoved(tasks);
    } else {
      var terminal := tasks[0].state.IsTerminal();
      WithoutFilters(tasks[1..], if terminal then remove - 1 else remove);
      if terminal {
        assert Terminals(tasks)[remove..] == Terminals(tasks[1..])[remove - 1..];
      }
    }
  }

  /**
    Eviction drops the terminal tasks before some point and nothing else: every task that has not ended stays,
    in order, and of the others the newest `max`, or all when there are fewer.
   */
  lemma EvictionKeepsTheNewest(s: Store, max: nat)
    ensures var after := Evicted(s, max).tasks;
            && Actives(after) == Actives(s.tasks)
            && Terminals(after) == Terminals(s.tasks)[Surplus(s.tasks, max)..]
            && |Terminals(after)| == (if |Terminals(s.tasks)| < max then |Terminals(s.tasks)| else max)
            && exists cut :: 0 <= cut <= |s.tasks| && after == Actives(s.tasks[..cut]) + s.tasks[cut..]
  {
    hide Terminals, Actives, Without;
    var cut := WithoutCuts(s.tasks, Surplus(s.tasks, max));
    WithoutFilters(s.tasks, Surplus(s.tasks, max));
    NothingRemoved(s.tasks);
  }

  lemma {:induction false} WithoutIsPart(tasks: seq<Task>, remove: nat, next: nat)
    requires DistinctIdsBelow(tasks, next) && DistinctRecords(tasks)
    ensures forall t :: t in Without(tasks, remove) ==> t in tasks
    ensures DistinctIdsBelow(Without(tasks, remove), next) && DistinctRecords(Without(tasks, remove))
    decreases |tasks|
  {
    hide Decode;
    if tasks != [] {
      var rest := Without(tasks[1..], if remove > 0 && tasks[0].state.IsTerminal() then remove - 1 else remove);
      WithoutIsPart(tasks[1..], if remove > 0 && tasks[0].state.IsTerminal() then remove - 1 else remove, next);
      forall k | 0 <= k < |rest|
        ensures exists j :: 0 < j < |tasks| && tasks[j] == rest[k]
      {
        assert rest[k] in tasks[1..];
        var j :| 0 <= j < |tasks[1..]| && tasks[1..][j] == rest[k];
        assert tasks[j + 1] == rest[k];
      }
    }
  }

  lemma EvictingKeepsValid(s: Store, max: nat)
    requires Valid(s)
    ensures Valid(Evicted(s, max))
    ensures forall t :: t in Evicted(s, max).tasks ==> t in s.tasks
  {
    hide IsSound, Without, DistinctIdsBelow, DistinctRecords;
    WithoutIsPart(s.tasks, Surplus(s.tasks, max), s.nextId);
    var after := Evicted(s, max).tasks;
    if after != [] {
      assert after[|after| - 1].id in Ids(after);
    }
    forall k | 0 <= k < |after| && after[k].id in Evicted(s, max).session
      ensures IsSound(after[k])
    {
      assert after[k] in s.tasks;
    }
  }

  lemma {:induction false} WithoutInOrder(tasks: seq<Task>, remove: nat)
    ensures IsSubsequence(Without(tasks, remove), tasks)
    decreases |tasks|
  {
    hide Decode;
    if tasks != [] {
      var drops := remove > 0 && tasks[0].state.IsTerminal();
      WithoutInOrder(tasks[1..], if drops then remove - 1 else remove);
      if !drops {
        assert Without(tasks, remove)[1..] == Without(tasks[1..], remove);
      }
    }
  }

  /** Eviction reorders nothing. */
  lemma EvictionKeepsOrder(s: Store, max: nat)
    ensures IsSubsequence(Evicted(s, max).tasks, s.tasks)
  {
    hide IsSubsequence, Without;
    NothingRemoved(s.tasks);
    WithoutInOrder(s.tasks, Surplus(s.tasks, max));
  }

  /** Eviction forgets the session ids of the tasks it drops, and selects the last task if it drops the selected one. */
  lemma EvictionKeepsBooks(s: Store, max: nat)
    requires Valid(s)
    ensures var s' := Evicted(s, max);
            && s'.nextId == s.nextId && s'.dirty == s.dirty
            && (forall id :: id in s'.session <==> id in s.session && id in Ids(s'.tasks))
            && s'.selected ==
                 if s.selected.None? || s.selected.value in Ids(s'.tasks) then s.selected
                 else if s'.tasks == [] then None
                 else Some(s'.tasks[|s'.tasks| - 1].id)
  {
    hide Without, Terminals, IsSound, DistinctRecords, DistinctIdsBelow;
  }

  lemma {:induction false} TerminalsAreTasks(tasks: seq<Task>)
    ensures forall t :: t in Terminals(tasks) ==> t in tasks
    decreases |tasks|
  {
    hide Decode;
    if tasks != [] {
      TerminalsAreTasks(tasks[1..]);
    }
  }

  lemma {:induction false} WithoutTasksAreTasks(tasks: seq<Task>, remove: nat)
    ensures forall t :: t in Without(tasks, remove) ==> t in tasks
    decreases |tasks|
  {
    hide Decode;
    if tasks != [] {
      WithoutTasksAreTasks(tasks[1..], if remove > 0 && tasks[0].state.IsTerminal() then remove - 1 else remove);
    }
  }

  /** No record that eviction drops stays under another task. */
  lemma {:induction false} WithoutDrops(tasks: seq<Task>, remove: nat)
    requires DistinctRecords(tasks) && remove <= |Terminals(tasks)|
    ensures forall t :: t in Terminals(tasks)[..remove] ==> t.recordId !in RecordIds(Without(tasks, remove))
    decreases |tasks|
  {
    hide Decode;
    if remove > 0 {
      var first, rest := tasks[0], tasks[1..];
      var terminal := first.state.IsTerminal();
      var left := if terminal then remove - 1 else remove;
      WithoutDrops(rest, left);
      TerminalsAreTasks(rest);
      WithoutTasksAreTasks(rest, left);
      forall t | t in rest
        ensures t.recordId != first.recordId
      {
        var k :| 0 <= k < |rest| && rest[k] == t;
        assert tasks[k + 1] == t;
      }
      if terminal {
        assert Terminals(tasks)[..remove] == [first] + Terminals(rest)[..left];
      } else {
        RecordIdsOf(Without(tasks, remove));
        assert Without(tasks, remove)[1..] == Without(rest, left);
      }
    }
  }

  lemma {:induction false} TerminalsSplit(tasks: seq<Task>, i: nat)
    requires i <= |tasks|
    ensures Terminals(tasks) == Terminals(tasks[..i]) + Terminals(tasks[i..])
    decreases i
  {
    hide Decode;
    if i == 0 {
      assert tasks[0..] == tasks;
    } else {
      TerminalsSplit(tasks[1..], i - 1);
      assert tasks[..i][1..] == tasks[1..][..i - 1] && tasks[1..][i - 1..] == tasks[i..];
    }
  }

  /** A terminal task survives eviction exactly when fewer than `max` terminal tasks come after it. */
  lemma TerminalSurvivesExactly(tasks: seq<Task>, i: nat, max: nat)
    requires DistinctRecords(tasks) && i < |tasks| && tasks[i].state.IsTerminal()
    ensures var after := Without(tasks, Surplus(tasks, max));
            if |Terminals(tasks[i + 1..])| < max then tasks[i] in after else tasks[i].recordId !in RecordIds(after)
  {
    hide Decode, Without;
    var remove := Surplus(tasks, max);
    var earlier := |Terminals(tasks[..i])|;
    TerminalsSplit(tasks, i);
    assert tasks[i..][1..] == tasks[i + 1..];
    assert Terminals(tasks)[earlier] == tasks[i];
    if |Terminals(tasks[i + 1..])| < max {
      WithoutFilters(tasks, remove);
      var left := Terminals(Without(tasks, remove));
      assert left[earlier - remove] == tasks[i];
      TerminalsAreTasks(Without(tasks, remove));
    } else {
      WithoutDrops(tasks, remove);
      assert Terminals(tasks)[..remove][earlier] == tasks[i];
    }
  }

  // ----- selection

  lemma {:induction false} FilteredIdsAreIds(tasks: seq<Task>, query: Task -> bool)
    ensures forall id :: id in FilteredIds(tasks, query) ==> id in Ids(tasks)
    decreases |tasks|
  {
    hide Decode;
    if tasks != [] {
      FilteredIdsAreIds(tasks[1..], query);
      forall id | id in FilteredIds(tasks, query)
        ensures id in Ids(tasks)
      {
        if id in Ids(tasks[1..]) {
          var k :| 0 <= k < |tasks[1..]| && tasks[1..][k].id == id;
          assert tasks[k + 1].id == id;
        } else {
          assert tasks[0].id == id;
        }
      }
    }
  }

  /** The list is that of the matching tasks, in the order of the store. */
  lemma {:induction false} FilteredInOrder(tasks: seq<Task>, query: Task -> bool, p: nat)
    requires p < |tasks| && query(tasks[p])
    ensures var at := Count(tasks[..p], query);
            at < |FilteredIds(tasks, query)| && FilteredIds(tasks, query)[at] == tasks[p].id
    decreases |tasks|
  {
    hide Decode;
    if p > 0 {
      FilteredInOrder(tasks[1..], query, p - 1);
      CountFromSecond(tasks, query, p);
    }
  }

  lemma {:induction false} FilteredAreCounted(tasks: seq<Task>, query: Task -> bool)
    ensures |FilteredIds(tasks, query)| == Count(tasks, query)
    decreases |tasks|
  {
    hide Decode;
    if tasks != [] {
      FilteredAreCounted(tasks[1..], query);
    }
  }

  /** A step moves the selection by the offset within the list, and stops at its ends; from elsewhere it starts at 0. */
  lemma StepMovesWithin(ids: seq<TaskId>, selected: Option<TaskId>, from: nat, offset: int)
    requires from < |ids| && forall i, j :: 0 <= i < j < |ids| ==> ids[i] != ids[j]
    requires if selected.Some? && selected.value in ids then ids[from] == selected.value else from == 0
    ensures Choose(ids, selected, Choice.Step(offset)) ==
            Some(if from + offset < 0 then ids[0]
                 else if from + offset < |ids| then ids[from + offset]
                 else ids[|ids| - 1])
  {
  }

  /** What a selection leaves: any of the listed tasks or none, and everything but the selection as it was. */
  lemma SelectingTakesFromTheList(s: Store, query: Task -> bool, choice: Choice)
    ensures var ids := FilteredIds(s.tasks, query);
            var s' := Selected(s, query, choice);
            && s' == s.(selected := s'.selected)
            && (s'.selected.Some? ==> s'.selected.value in ids)
            && (s'.selected.None? <==> ids == [] || (choice.At? && choice.position >= |ids|))
            && (choice.At? && choice.position < |ids| ==> s'.selected == Some(ids[choice.position]))
            && (choice.Last? && ids != [] ==> s'.selected == Some(ids[|ids| - 1]))
  {
    hide FilteredIds, Position;
  }

  lemma SelectingKeepsValid(s: Store, query: Task -> bool, choice: Choice)
    requires Valid(s)
    ensures Valid(Selected(s, query, choice))
  {
    hide IsSound, FilteredIds, Position;
    FilteredIdsAreIds(s.tasks, query);
  }

  // ----- the life of a task over a run

  /** Every later task whose id was already given out was there before, and has only advanced since. */
  ghost predicate Evolves(before: Store, after: Store) {
    && before.nextId <= after.nextId
    && forall j :: 0 <= j < |after.tasks| && after.tasks[j].id < before.nextId ==>
         exists i :: 0 <= i < |before.tasks| && Advances(before.tasks[i], after.tasks[j])
  }

  lemma AdvancesReflexive(task: Task)
    ensures Advances(task, task)
  {
  }

  lemma OpKeepsValid(s: Store, op: Op)
    requires Valid(s) && Lawful(s, op)
    ensures Valid(Applied(s, op))
  {
    hide Valid, Advances, Unknown;
    match op {
      case Create(recordId, actionId, targetLabel, startedAt, cancellable) =>
        CreatingKeepsValidExactly(s, recordId, actionId, targetLabel, startedAt, cancellable);
      case ChangeTask(id, change) => ChangingKeepsValid(s, id, change);
      case Merge(restored) => MergingKeepsValid(s, restored);
      case Evict(max) => EvictingKeepsValid(s, max);
      case Select(query, choice) => SelectingKeepsValid(s, query, choice);
    }
  }

  lemma SurvivorsEvolve(before: Store, after: Store)
    requires before.nextId <= after.nextId
    requires forall j :: 0 <= j < |after.tasks| && after.tasks[j].id < before.nextId ==> after.tasks[j] in before.tasks
    ensures Evolves(before, after)
  {
    hide Advances;
    forall j | 0 <= j < |after.tasks| && after.tasks[j].id < before.nextId
      ensures exists i :: 0 <= i < |before.tasks| && Advances(before.tasks[i], after.tasks[j])
    {
      var i :| 0 <= i < |before.tasks| && before.tasks[i] == after.tasks[j];
      AdvancesReflexive(before.tasks[i]);
    }
  }

  lemma EvictionSparesTheIds(s: Store, max: nat)
    ensures Evicted(s, max).nextId == s.nextId && Evicted(s, max).dirty == s.dirty
  {
  }

  lemma MergingEvolves(s: Store, restored: seq<Task>)
    requires Valid(s) && Lawful(s, Merge(restored))
    ensures Evolves(s, Merged(s, restored))
  {
    hide Advances, Unknown, IsSound, Merged, DistinctRecords, DistinctIdsBelow;
    MergedTasks(s, restored);
    forall j | 0 <= j < |Merged(s, restored).tasks| && Merged(s, restored).tasks[j].id < s.nextId
      ensures Merged(s, restored).tasks[j] in s.tasks
    {
      MergedTask(s, restored, j);
    }
    SurvivorsEvolve(s, Merged(s, restored));
  }

  lemma OpEvolves(s: Store, op: Op)
    requires Valid(s) && Lawful(s, op)
    ensures Evolves(s, Applied(s, op))
  {
    hide Advances, Unknown, IsSound, Changed, Merged, Evicted, DistinctRecords, DistinctIdsBelow, Ids, RecordIds;
    match op {
      case Create(recordId, actionId, targetLabel, startedAt, cancellable) =>
        SurvivorsEvolve(s, Applied(s, op));
      case ChangeTask(id, change) => ChangingKeepsValid(s, id, change);
      case Merge(restored) => MergingEvolves(s, restored);
      case Evict(max) =>
        EvictingKeepsValid(s, max);
        EvictionSparesTheIds(s, max);
        SurvivorsEvolve(s, Evicted(s, max));
      case Select(query, choice) =>
        SurvivorsEvolve(s, Selected(s, query, choice));
    }
  }

  lemma AdvancesKeepsId(before: Task, after: Task)
    requires Advances(before, after)
    ensures after.id == before.id
  {
  }

  lemma EvolvesTransitive(a: Store, b: Store, c: Store)
    requires Evolves(a, b) && Evolves(b, c)
    ensures Evolves(a, c)
  {
    hide Advances;
    forall k | 0 <= k < |c.tasks| && c.tasks[k].id < a.nextId
      ensures exists i :: 0 <= i < |a.tasks| && Advances(a.tasks[i], c.tasks[k])
    {
      var j :| 0 <= j < |b.tasks| && Advances(b.tasks[j], c.tasks[k]);
      AdvancesKeepsId(b.tasks[j], c.tasks[k]);
      var i :| 0 <= i < |a.tasks| && Advances(a.tasks[i], b.tasks[j]);
      AdvancesTransitive(a.tasks[i], b.tasks[j], c.tasks[k]);
    }
  }

  function AppliedAll(s: Store, ops: seq<Op>): Store
    decreases |ops|
  {
    if ops == [] then s else AppliedAll(Applied(s, ops[0]), ops[1..])
  }

  ghost predicate LawfulAll(s: Store, ops: seq<Op>)
    decreases |ops|
  {
    ops == [] || (Lawful(s, ops[0]) && LawfulAll(Applied(s, ops[0]), ops[1..]))
  }

  /**
    Every run keeps the invariant: ids stay distinct and below the next one, session ids and the selection name
    stored tasks, and tasks created here end with an end time and a bounded detail. And every task that has
    survived the run has only moved on along its life, never out of a terminal state; no id is used twice.
   */
  lemma {:induction false} RunsKeepValid(s: Store, ops: seq<Op>)
    requires Valid(s) && LawfulAll(s, ops)
    ensures Valid(AppliedAll(s, ops)) && Evolves(s, AppliedAll(s, ops))
    decreases |ops|
  {
    hide Valid, Advances, Applied, Lawful;
    if ops == [] {
      SurvivorsEvolve(s, s);
    } else {
      var next := Applied(s, ops[0]);
      OpKeepsValid(s, ops[0]);
      OpEvolves(s, ops[0]);
      RunsKeepValid(next, ops[1..]);
      EvolvesTransitive(s, next, AppliedAll(s, ops));
    }
  }

  // ----- where a terminal task comes from

  /** The same end: outcome, time and summary. */
  predicate EndsAlike(a: Task, b: Task) {
    a.state == b.state && a.finishedAt == b.finishedAt && a.summary == b.summary
  }

  /** The operation finishes a task that runs or is being cancelled, giving it the end that `task` has. */
  predicate EndsHere(s: Store, op: Op, task: Task) {
    && op.ChangeTask? && op.id == task.id && op.change.Finish?
    && task.state == op.change.outcome && task.finishedAt == Some(op.change.at) && task.summary == op.change.summary
    && exists i :: 0 <= i < |s.tasks| && s.tasks[i].id == task.id && s.tasks[i].state in {Running, Cancelling}
  }

  /** The operation restores a record with the end that `task` has. */
  predicate RestoresIt(op: Op, task: Task) {
    op.Merge? && exists r :: r in op.restored && r.recordId == task.recordId && EndsAlike(r, task)
  }

  /** The task had this end in the store already. */
  predicate HadEnded(s: Store, task: Task) {
    exists i :: 0 <= i < |s.tasks| && s.tasks[i].id == task.id && EndsAlike(s.tasks[i], task)
  }

  /** Somewhere in the run the task was finished, or its record restored, with the end it has. */
  ghost predicate GotItsEnd(s: Store, ops: seq<Op>, task: Task)
    decreases |ops|
  {
    ops != [] && (EndsHere(s, ops[0], task) || RestoresIt(ops[0], task)
                  || GotItsEnd(Applied(s, ops[0]), ops[1..], task))
  }

  lemma OnlyFinishingEnds(task: Task, change: Change)
    requires Changed(task, change).Some? && !change.Finish? && Changed(task, change).value.state.IsTerminal()
    ensures EndsAlike(task, Changed(task, change).value)
  {
    hide Decode;
    if change.Report? {
      DetailIsAppended(task.(progress := Some(change.progress)), change.detail);
    }
  }

  lemma ChangeGivesItsEnd(s: Store, id: TaskId, change: Change, i: nat)
    requires Valid(s) && IsProper(change)
    requires i < |TaskChanged(s, id, change).tasks| && TaskChanged(s, id, change).tasks[i].state.IsTerminal()
    ensures var task := TaskChanged(s, id, change).tasks[i];
            HadEnded(s, task) || EndsHere(s, ChangeTask(id, change), task)
  {
    hide IsSound, Decode, DistinctRecords, WithDetail;
    var at := IndexOf(s.tasks, id);
    var before, after := s.tasks[i], TaskChanged(s, id, change).tasks[i];
    if i == at && Changed(before, change).Some? {
      assert after == Changed(before, change).value;
      ChangesAdvance(before, change);
      if change.Finish? {
        FinishingSettles(before, change.outcome, change.at, change.summary, change.detail);
        assert s.tasks[i].state in {Running, Cancelling};
      } else {
        OnlyFinishingEnds(before, change);
      }
    } else {
      assert after == before;
    }
  }

  lemma MergeGivesItsEnd(s: Store, restored: seq<Task>, k: nat)
    requires Valid(s) && Lawful(s, Merge(restored)) && k < |Merged(s, restored).tasks|
    ensures var task := Merged(s, restored).tasks[k];
            HadEnded(s, task) || RestoresIt(Merge(restored), task)
  {
    hide IsSound, Merged, DistinctRecords, DistinctIdsBelow, Unknown;
    var unknown := Unknown(restored, RecordIds(s.tasks));
    var task := Merged(s, restored).tasks[k];
    MergedTasks(s, restored);
    UnknownAreTheNewOnes(restored, RecordIds(s.tasks));
    if k < |unknown| {
      assert Row(task) == Row(unknown[k]) && unknown[k] in restored;
      assert Row(task).recordId == Row(unknown[k]).recordId && Row(task).state == Row(unknown[k]).state
          && Row(task).finishedAt == Row(unknown[k]).finishedAt && Row(task).summary == Row(unknown[k]).summary;
    } else {
      assert Merged(s, restored).tasks[|unknown|..][k - |unknown|] == task;
    }
  }

  lemma OpGivesItsEnd(s: Store, op: Op, k: nat)
    requires Valid(s) && Lawful(s, op) && k < |Applied(s, op).tasks| && Applied(s, op).tasks[k].state.IsTerminal()
    ensures var task := Applied(s, op).tasks[k];
            HadEnded(s, task) || EndsHere(s, op, task) || RestoresIt(op, task)
  {
    hide IsSound, Merged, Evicted, TaskChanged, EndsHere, RestoresIt, DistinctRecords, DistinctIdsBelow, Changed;
    match op {
      case Create(_, _, _, _, _) =>
      case ChangeTask(id, change) =>
        ChangingKeepsValid(s, id, change);
        ChangeGivesItsEnd(s, id, change, k);
      case Merge(restored) => MergeGivesItsEnd(s, restored, k);
      case Evict(max) =>
        EvictingKeepsValid(s, max);
        assert Evicted(s, max).tasks[k] in s.tasks;
      case Select(_, _) =>
    }
  }

  lemma EndIsPassedOn(s: Store, ops: seq<Op>, task: Task)
    requires ops != [] && Valid(s) && Lawful(s, ops[0])
    requires HadEnded(Applied(s, ops[0]), task) && task.state.IsTerminal()
    requires forall k :: 0 <= k < |Applied(s, ops[0]).tasks| && Applied(s, ops[0]).tasks[k].id == task.id ==>
               Applied(s, ops[0]).tasks[k].recordId == task.recordId
    ensures HadEnded(s, task) || EndsHere(s, ops[0], task) || RestoresIt(ops[0], task)
  {
    hide Applied, IsSound, Lawful, Valid;
    var next := Applied(s, ops[0]);
    var k :| 0 <= k < |next.tasks| && next.tasks[k].id == task.id && EndsAlike(next.tasks[k], task);
    OpGivesItsEnd(s, ops[0], k);
  }

  lemma SameIdSameRecord(s: Store, ops: seq<Op>, task: Task)
    requires Valid(s) && LawfulAll(s, ops) && task in AppliedAll(s, ops).tasks
    ensures forall k :: 0 <= k < |s.tasks| && s.tasks[k].id == task.id ==> s.tasks[k].recordId == task.recordId
  {
    hide IsSound, AppliedAll, LawfulAll, DistinctRecords;
    RunsKeepValid(s, ops);
    forall k | 0 <= k < |s.tasks| && s.tasks[k].id == task.id
      ensures s.tasks[k].recordId == task.recordId
    {
      var j :| 0 <= j < |AppliedAll(s, ops).tasks| && AppliedAll(s, ops).tasks[j] == task;
      var i :| 0 <= i < |s.tasks| && Advances(s.tasks[i], task);
      assert s.tasks[i].id == s.tasks[k].id;
    }
  }

  /**
    Every terminal task at the end of a run had its end before the run, or got it in the run: from the one change
    that finished it, with that change's outcome, time and summary, or from a restored record.
   */
  lemma {:induction false} EveryEndHasItsCause(s: Store, ops: seq<Op>, task: Task)
    requires Valid(s) && LawfulAll(s, ops)
    requires task in AppliedAll(s, ops).tasks && task.state.IsTerminal()
    ensures HadEnded(s, task) || GotItsEnd(s, ops, task)
    decreases |ops|
  {
    hide Valid, Applied, Lawful, EndsHere, RestoresIt;
    if ops == [] {
      var i :| 0 <= i < |s.tasks| && s.tasks[i] == task;
    } else {
      var next := Applied(s, ops[0]);
      OpKeepsValid(s, ops[0]);
      RunsKeepValid(next, ops[1..]);
      EveryEndHasItsCause(next, ops[1..], task);
      if HadEnded(next, task) {
        SameIdSameRecord(next, ops[1..], task);
        EndIsPassedOn(s, ops, task);
      }
    }
  }

  lemma EmptyStoreIsValid()
    ensures Valid(Store([], 1, {}, {}, None))
  {
  }

  // ----- the persisted history

  /** The history as rows by record id, before the database deletes old ones. */
  type Mirror = map<RecordId, Task>

  datatype World = World(store: Store, mirror: Mirror)

  /** An operation within an update, or the end of the update, when the dirty tasks are persisted. */
  datatype Step = Do(op: Op) | EndUpdate

  function Upserted(mirror: Mirror, batch: seq<Task>): Mirror
    decreases |batch|
  {
    if batch == [] then mirror else Upserted(mirror[batch[0].recordId := Row(batch[0])], batch[1..])
  }

  function Stepped(w: World, step: Step): World {
    match step
    case Do(op) => w.(store := Applied(w.store, op))
    case EndUpdate => World(w.store.(dirty := {}), Upserted(w.mirror, DirtyTasks(w.store.tasks, w.store.dirty)))
  }

  /** The history holds this task as it is. */
  predicate Holds(mirror: Mirror, task: Task) {
    task.recordId in mirror && mirror[task.recordId] == Row(task)
  }

  ghost predicate HoldsAll(mirror: Mirror, tasks: seq<Task>) {
    forall k :: 0 <= k < |tasks| ==> Holds(mirror, tasks[k])
  }

  /** The history holds every task that is not waiting to be persisted. */
  ghost predicate HoldsClean(w: World) {
    forall k :: 0 <= k < |w.store.tasks| ==>
      w.store.tasks[k].recordId in w.store.dirty || Holds(w.mirror, w.store.tasks[k])
  }

  /** A new record id is new to the history too; what is merged was read from the history. */
  ghost predicate LawfulStep(w: World, step: Step) {
    match step
    case EndUpdate => true
    case Do(op) =>
      && Lawful(w.store, op)
      && (op.Create? ==> op.recordId !in w.mirror)
      && (op.Merge? ==> HoldsAll(w.mirror, op.restored))
  }

  predicate SameRow(a: Mirror, b: Mirror, r: RecordId) {
    (r in a <==> r in b) && (r in a ==> a[r] == b[r])
  }

  /** What is taken for persisting: the dirty tasks and no others, in the order of the store. */
  lemma {:induction false} DirtyInOrder(tasks: seq<Task>, dirty: set<RecordId>)
    ensures IsSubsequence(DirtyTasks(tasks, dirty), tasks)
    ensures forall t :: t in DirtyTasks(tasks, dirty) <==> t in tasks && t.recordId in dirty
    decreases |tasks|
  {
    hide Decode;
    if tasks != [] {
      DirtyInOrder(tasks[1..], dirty);
      assert tasks == [tasks[0]] + tasks[1..];
      if tasks[0].recordId in dirty {
        assert DirtyTasks(tasks, dirty)[1..] == DirtyTasks(tasks[1..], dirty);
      }
    }
  }

  /** After persisting, the history holds a task exactly when it was dirty or held already; no other row changes. */
  lemma {:induction false} DrainingHoldsExactly(tasks: seq<Task>, dirty: set<RecordId>, mirror: Mirror)
    requires DistinctRecords(tasks)
    ensures var after := Upserted(mirror, DirtyTasks(tasks, dirty));
            && (forall k :: 0 <= k < |tasks| ==>
                  (Holds(after, tasks[k]) <==> tasks[k].recordId in dirty || Holds(mirror, tasks[k])))
            && forall r :: r !in RecordIds(tasks) ==> SameRow(after, mirror, r)
    decreases |tasks|
  {
    hide Decode;
    if tasks != [] {
      var first, rest := tasks[0], tasks[1..];
      var next := if first.recordId in dirty then mirror[first.recordId := Row(first)] else mirror;
      var batch := DirtyTasks(rest, dirty);
      assert Upserted(mirror, DirtyTasks(tasks, dirty)) == Upserted(next, batch) by {
        assert ([first] + batch)[1..] == batch;
      }
      assert DistinctRecords(rest);
      DrainingHoldsExactly(rest, dirty, next);
      var after := Upserted(next, batch);
      assert first.recordId !in RecordIds(rest);
      forall k | 0 <= k < |tasks|
        ensures Holds(after, tasks[k]) <==> tasks[k].recordId in dirty || Holds(mirror, tasks[k])
      {
        if k > 0 { assert tasks[k] == rest[k - 1]; }
      }
      forall r | r !in RecordIds(tasks)
        ensures r !in RecordIds(rest) && r != first.recordId
      {
        RecordIdsOf(tasks);
      }
    }
  }

  /** The end of an update brings the history into agreement exactly when only dirty tasks were out of it. */
  lemma EndUpdateHoldsAllExactly(w: World)
    requires Valid(w.store)
    ensures var after := Stepped(w, EndUpdate);
            HoldsAll(after.mirror, after.store.tasks) <==> HoldsClean(w)
  {
    hide Holds, DirtyTasks, Upserted, DistinctRecords, DistinctIdsBelow, Ids, IsSound;
    DrainingHoldsExactly(w.store.tasks, w.store.dirty, w.mirror);
  }

  /**
    A merge keeps the history in agreement exactly when it holds each unknown record as merged, or will be told
    of it.
   */
  lemma MergingKeepsHistoryExactly(w: World, restored: seq<Task>)
    requires Valid(w.store) && HoldsClean(w) && Lawful(w.store, Merge(restored))
    ensures HoldsClean(Stepped(w, Do(Merge(restored)))) <==>
              forall k :: 0 <= k < |Unknown(restored, RecordIds(w.store.tasks))| ==>
                var task := Unknown(restored, RecordIds(w.store.tasks))[k];
                task.recordId in w.store.dirty || Holds(w.mirror, task)
  {
    hide Unknown, Merged, Renumbered, Valid;
    var s := w.store;
    var unknown := Unknown(restored, RecordIds(s.tasks));
    var s' := Merged(s, restored);
    MergedTasks(s, restored);
    var n := |unknown|;
    forall k | 0 <= k < |s'.tasks|
      ensures k < n ==>
                && (Holds(w.mirror, s'.tasks[k]) <==> Holds(w.mirror, unknown[k]))
                && s'.tasks[k].recordId == unknown[k].recordId
      ensures k >= n ==> s'.tasks[k] == s.tasks[k - n]
    {
      if k < n {
        assert Row(s'.tasks[k]).recordId == Row(unknown[k]).recordId;
      } else {
        assert s'.tasks[n..][k - n] == s.tasks[k - n];
      }
    }
  }

  /** And the next end of an update finds them in agreement in exactly the same cases. */
  lemma MergedHistoryAgreesExactly(w: World, restored: seq<Task>)
    requires Valid(w.store) && HoldsClean(w) && Lawful(w.store, Merge(restored))
    ensures var after := Stepped(Stepped(w, Do(Merge(restored))), EndUpdate);
            HoldsAll(after.mirror, after.store.tasks) <==>
              forall k :: 0 <= k < |Unknown(restored, RecordIds(w.store.tasks))| ==>
                var task := Unknown(restored, RecordIds(w.store.tasks))[k];
                task.recordId in w.store.dirty || Holds(w.mirror, task)
  {
    hide Merged, Unknown, Valid, HoldsAll, HoldsClean, Holds;
    MergingKeepsValid(w.store, restored);
    MergingKeepsHistoryExactly(w, restored);
    EndUpdateHoldsAllExactly(Stepped(w, Do(Merge(restored))));
  }

  /** A change leaves every task as it was or marks it dirty, under the same record. */
  lemma ChangingIsMarked(s: Store, id: TaskId, change: Change)
    requires Valid(s) && IsProper(change)
    ensures var s' := TaskChanged(s, id, change);
            && |s'.tasks| == |s.tasks| && s.dirty <= s'.dirty
            && forall k :: 0 <= k < |s.tasks| ==>
                 s'.tasks[k].recordId == s.tasks[k].recordId
                 && (s'.tasks[k] == s.tasks[k] || s'.tasks[k].recordId in s'.dirty)
  {
    hide IsSound, Changed;
    ChangingKeepsValid(s, id, change);
  }

  lemma StepKeepsHistory(w: World, step: Step)
    requires Valid(w.store) && HoldsClean(w) && LawfulStep(w, step)
    ensures Valid(Stepped(w, step).store) && HoldsClean(Stepped(w, step))
    ensures step.EndUpdate? ==> HoldsAll(Stepped(w, step).mirror, Stepped(w, step).store.tasks)
  {
    hide IsSound, Unknown, Merged, Evicted, Row, DirtyTasks, Upserted, Ids, DistinctIdsBelow, TaskChanged;
    match step
    case EndUpdate => DrainingHoldsExactly(w.store.tasks, w.store.dirty, w.mirror);
    case Do(op) =>
      OpKeepsValid(w.store, op);
      match op {
        case Create(_, _, _, _, _) =>
        case ChangeTask(id, change) => ChangingIsMarked(w.store, id, change);
        case Merge(restored) =>
          UnknownAreTheNewOnes(restored, RecordIds(w.store.tasks));
          MergingKeepsHistoryExactly(w, restored);
        case Evict(max) =>
          EvictingKeepsValid(w.store, max);
          EvictionSparesTheIds(w.store, max);
          var after := Evicted(w.store, max).tasks;
          forall k | 0 <= k < |after|
            ensures after[k].recordId in w.store.dirty || Holds(w.mirror, after[k])
          {
            assert after[k] in w.store.tasks;
          }
        case Select(_, _) =>
      }
  }

  function Ran(w: World, steps: seq<Step>): World
    decreases |steps|
  {
    if steps == [] then w else Ran(Stepped(w, steps[0]), steps[1..])
  }

  ghost predicate LawfulRun(w: World, steps: seq<Step>)
    decreases |steps|
  {
    steps == [] || (LawfulStep(w, steps[0]) && LawfulRun(Stepped(w, steps[0]), steps[1..]))
  }

  /** At the end of every update of every run the history holds every task in memory, whatever has been evicted. */
  lemma {:induction false} HistoryFollowsMemory(w: World, steps: seq<Step>)
    requires Valid(w.store) && HoldsClean(w) && LawfulRun(w, steps)
    ensures var after := Ran(w, steps);
            && Valid(after.store) && HoldsClean(after)
            && (steps != [] && steps[|steps| - 1].EndUpdate? ==> HoldsAll(after.mirror, after.store.tasks))
    decreases |steps|
  {
    hide Valid, LawfulStep, Stepped, HoldsClean, HoldsAll;
    if steps != [] {
      StepKeepsHistory(w, steps[0]);
      HistoryFollowsMemory(Stepped(w, steps[0]), steps[1..]);
    }
  }

  // ----- records that are not in memory

  /** The step brings no task with this record into memory. */
  predicate Spares(step: Step, r: RecordId) {
    step.Do? ==>
      && (step.op.Create? ==> step.op.recordId != r)
      && (step.op.Merge? ==> r !in RecordIds(step.op.restored))
  }

  lemma MergingSparesOtherRecords(s: Store, restored: seq<Task>, r: RecordId)
    requires Valid(s) && Lawful(s, Merge(restored))
    requires r !in RecordIds(s.tasks) && r !in RecordIds(restored)
    ensures r !in RecordIds(Merged(s, restored).tasks)
  {
    hide IsSound, Merged, Unknown, DistinctRecords, DistinctIdsBelow, Ids;
    var unknown := Unknown(restored, RecordIds(s.tasks));
    var tasks := Merged(s, restored).tasks;
    MergedTasks(s, restored);
    UnknownAreTheNewOnes(restored, RecordIds(s.tasks));
    forall k | 0 <= k < |tasks|
      ensures tasks[k].recordId != r
    {
      if k < |unknown| {
        assert Row(tasks[k]).recordId == Row(unknown[k]).recordId;
        assert unknown[k] in restored;
      } else {
        assert tasks[|unknown|..][k - |unknown|] == tasks[k];
      }
    }
  }

  /** What a record that is not in memory has in the history stays, and the record stays out of memory. */
  lemma StepSparesOtherRecords(w: World, step: Step, r: RecordId)
    requires Valid(w.store) && LawfulStep(w, step) && Spares(step, r) && r !in RecordIds(w.store.tasks)
    ensures r !in RecordIds(Stepped(w, step).store.tasks)
    ensures SameRow(Stepped(w, step).mirror, w.mirror, r)
  {
    hide IsSound, Changed, Merged, Unknown, Evicted, Row, DirtyTasks, Upserted, Ids, DistinctIdsBelow, Advances;
    match step
    case EndUpdate => DrainingHoldsExactly(w.store.tasks, w.store.dirty, w.mirror);
    case Do(op) =>
      match op {
        case ChangeTask(id, change) => ChangingKeepsValid(w.store, id, change);
        case Merge(restored) => MergingSparesOtherRecords(w.store, restored, r);
        case Evict(max) =>
          EvictingKeepsValid(w.store, max);
          var after := Evicted(w.store, max).tasks;
          forall k | 0 <= k < |after|
            ensures after[k].recordId in RecordIds(w.store.tasks)
          {
            assert after[k] in w.store.tasks;
          }
        case _ =>
      }
  }

  predicate AllSpare(steps: seq<Step>, r: RecordId) {
    forall k :: 0 <= k < |steps| ==> Spares(steps[k], r)
  }

  lemma {:induction false} RunSparesOtherRecords(w: World, steps: seq<Step>, r: RecordId)
    requires Valid(w.store) && HoldsClean(w) && LawfulRun(w, steps) && AllSpare(steps, r)
    requires r !in RecordIds(w.store.tasks)
    ensures r !in RecordIds(Ran(w, steps).store.tasks)
    ensures SameRow(Ran(w, steps).mirror, w.mirror, r)
    decreases |steps|
  {
    hide Valid, HoldsClean, LawfulStep, Stepped, Spares, RecordIds;
    if steps != [] {
      StepKeepsHistory(w, steps[0]);
      StepSparesOtherRecords(w, steps[0], r);
      RunSparesOtherRecords(Stepped(w, steps[0]), steps[1..], r);
    }
  }

  // ----- restoring

  /** The history read at the start may be merged whenever it arrives: nothing done meanwhile puts it out of date. */
  lemma {:induction false} RestoringMayComeLate(w: World, steps: seq<Step>, loaded: seq<Task>)
    requires Valid(w.store) && HoldsClean(w) && LawfulRun(w, steps)
    requires forall k :: 0 <= k < |steps| ==> !(steps[k].Do? && steps[k].op.Merge?)
    requires HoldsAll(w.mirror, loaded)
    requires forall k :: 0 <= k < |loaded| ==> loaded[k].recordId !in RecordIds(w.store.tasks)
    ensures HoldsAll(Ran(w, steps).mirror, loaded)
    ensures forall k :: 0 <= k < |loaded| ==> loaded[k].recordId !in RecordIds(Ran(w, steps).store.tasks)
    decreases |steps|
  {
    hide Valid, HoldsClean, Stepped, RecordIds, Row;
    if steps != [] {
      var next := Stepped(w, steps[0]);
      StepKeepsHistory(w, steps[0]);
      forall k | 0 <= k < |loaded|
        ensures Holds(next.mirror, loaded[k]) && loaded[k].recordId !in RecordIds(next.store.tasks)
      {
        StepSparesOtherRecords(w, steps[0], loaded[k].recordId);
      }
      RestoringMayComeLate(next, steps[1..], loaded);
    }
  }

  /**
    A batch read before a record was last persisted does put memory and history apart, once the record has been
    evicted.
   */
  lemma StaleBatchPartsThem(w: World, restored: seq<Task>, stale: Task)
    requires Valid(w.store) && HoldsClean(w) && Lawful(w.store, Merge(restored))
    requires stale in restored && stale.recordId !in RecordIds(w.store.tasks) && stale.recordId !in w.store.dirty
    requires stale.recordId in w.mirror && w.mirror[stale.recordId] != Row(stale)
    ensures var after := Stepped(Stepped(w, Do(Merge(restored))), EndUpdate);
            !HoldsAll(after.mirror, after.store.tasks)
  {
    hide Merged, Valid, HoldsAll, HoldsClean, Unknown, Row;
    UnknownAreTheNewOnes(restored, RecordIds(w.store.tasks));
    MergedHistoryAgreesExactly(w, restored);
  }

  // ----- the past

  /** The tasks that a step drops from memory, which only eviction does. */
  function Dropped(s: Store, step: Step): seq<Task> {
    if step.Do? && step.op.Evict? then Terminals(s.tasks)[..Surplus(s.tasks, step.op.max)] else []
  }

  /** All that a run drops, each task in its last state. */
  function Departed(w: World, steps: seq<Step>): seq<Task>
    decreases |steps|
  {
    if steps == [] then [] else Dropped(w.store, steps[0]) + Departed(Stepped(w, steps[0]), steps[1..])
  }

  /** No record that the run drops comes back into memory later in the run. */
  ghost predicate NoneReturns(w: World, steps: seq<Step>)
    decreases |steps|
  {
    steps == [] || (
      && (forall t :: t in Dropped(w.store, steps[0]) ==> AllSpare(steps[1..], t.recordId))
      && NoneReturns(Stepped(w, steps[0]), steps[1..]))
  }

  /** Each eviction of the run drops only tasks that the history holds by then. */
  ghost predicate EvictsOnlyHeld(w: World, steps: seq<Step>)
    decreases |steps|
  {
    steps == [] || (HoldsAll(w.mirror, Dropped(w.store, steps[0])) && EvictsOnlyHeld(Stepped(w, steps[0]), steps[1..]))
  }

  /** Each eviction of the run drops only tasks that are not waiting to be persisted. */
  ghost predicate EvictsOnlyClean(w: World, steps: seq<Step>)
    decreases |steps|
  {
    steps == [] || (
      && (forall t :: t in Dropped(w.store, steps[0]) ==> t.recordId !in w.store.dirty)
      && EvictsOnlyClean(Stepped(w, steps[0]), steps[1..]))
  }

  lemma DroppedAreGone(w: World, step: Step)
    requires Valid(w.store)
    ensures forall t :: t in Dropped(w.store, step) ==>
              t in w.store.tasks && t.recordId !in RecordIds(Stepped(w, step).store.tasks)
    ensures Dropped(w.store, step) != [] ==> Stepped(w, step).mirror == w.mirror
  {
    hide Without, Terminals, RecordIds, DistinctRecords, DistinctIdsBelow, Ids, IsSound;
    if Dropped(w.store, step) != [] {
      WithoutDrops(w.store.tasks, Surplus(w.store.tasks, step.op.max));
      TerminalsAreTasks(w.store.tasks);
    }
  }

  /** A dropped task is in the history at the end of the run exactly when it was held when it was dropped. */
  lemma DroppedStayAsTheyWere(w: World, steps: seq<Step>)
    requires Valid(w.store) && HoldsClean(w) && LawfulRun(w, steps) && steps != []
    requires forall t :: t in Dropped(w.store, steps[0]) ==> AllSpare(steps[1..], t.recordId)
    ensures HoldsAll(Ran(w, steps).mirror, Dropped(w.store, steps[0])) <==>
            HoldsAll(w.mirror, Dropped(w.store, steps[0]))
  {
    hide Valid, HoldsClean, LawfulStep, Stepped, RecordIds, Dropped, AllSpare, Row;
    var dropped := Dropped(w.store, steps[0]);
    var next := Stepped(w, steps[0]);
    StepKeepsHistory(w, steps[0]);
    DroppedAreGone(w, steps[0]);
    forall k | 0 <= k < |dropped|
      ensures Holds(Ran(w, steps).mirror, dropped[k]) <==> Holds(w.mirror, dropped[k])
    {
      assert dropped[k] in dropped;
      RunSparesOtherRecords(next, steps[1..], dropped[k].recordId);
    }
  }

  lemma HoldsBoth(mirror: Mirror, a: seq<Task>, b: seq<Task>)
    ensures HoldsAll(mirror, a + b) <==> HoldsAll(mirror, a) && HoldsAll(mirror, b)
  {
    hide Holds;
    assert forall k :: 0 <= k < |a| ==> (a + b)[k] == a[k];
    assert forall k :: 0 <= k < |b| ==> (a + b)[|a| + k] == b[k];
  }

  /**
    The history keeps the last state of every task dropped in a run, and at the end of an update of every task at
    all, exactly when each was held by the history when it was dropped. No later update makes up for it.
   */
  lemma {:induction false} HistoryKeepsThePastExactly(w: World, steps: seq<Step>)
    requires Valid(w.store) && HoldsClean(w) && LawfulRun(w, steps) && NoneReturns(w, steps)
    ensures HoldsAll(Ran(w, steps).mirror, Departed(w, steps)) <==> EvictsOnlyHeld(w, steps)
    ensures steps != [] && steps[|steps| - 1].EndUpdate? ==>
              var after := Ran(w, steps);
              HoldsAll(after.mirror, Departed(w, steps) + after.store.tasks) <==> EvictsOnlyHeld(w, steps)
    decreases |steps|
  {
    hide Valid, HoldsClean, LawfulStep, Stepped, Dropped, AllSpare, Holds;
    HistoryFollowsMemory(w, steps);
    if steps != [] {
      var next := Stepped(w, steps[0]);
      StepKeepsHistory(w, steps[0]);
      HistoryKeepsThePastExactly(next, steps[1..]);
      DroppedStayAsTheyWere(w, steps);
      HoldsBoth(Ran(w, steps).mirror, Dropped(w.store, steps[0]), Departed(next, steps[1..]));
    }
    HoldsBoth(Ran(w, steps).mirror, Departed(w, steps), Ran(w, steps).store.tasks);
  }

  /** So it is enough that no dirty task is evicted. */
  lemma {:induction false} EvictingCleanLosesNothing(w: World, steps: seq<Step>)
    requires Valid(w.store) && HoldsClean(w) && LawfulRun(w, steps) && EvictsOnlyClean(w, steps)
    ensures EvictsOnlyHeld(w, steps)
    decreases |steps|
  {
    hide Valid, LawfulStep, Stepped, Dropped, Holds;
    if steps != [] {
      var dropped := Dropped(w.store, steps[0]);
      StepKeepsHistory(w, steps[0]);
      DroppedAreGone(w, steps[0]);
      assert forall k :: 0 <= k < |dropped| ==> dropped[k] in dropped;
      EvictingCleanLosesNothing(Stepped(w, steps[0]), steps[1..]);
    }
  }

  /** Finishing a task, evicting down to `max`, and persisting: what one update does when a task ends. */
  function FinishingUpdate(id: TaskId, outcome: TaskState, at: Timestamp, summary: string, detail: Text,
                           max: nat): seq<Step>
  {
    [Do(ChangeTask(id, Finish(outcome, at, summary, detail))), Do(Evict(max)), EndUpdate]
  }

  lemma FinishedIsTerminal(task: Task, change: Change)
    requires change.Finish? && IsOutcome(change.outcome) && Changed(task, change).Some?
    ensures var finished := Changed(task, change).value;
            finished.state.IsTerminal() && finished.recordId == task.recordId
  {
  }

  lemma EvictedTasks(s: Store, max: nat)
    ensures Evicted(s, max).tasks == Without(s.tasks, Surplus(s.tasks, max))
  {
    NothingRemoved(s.tasks);
  }

  lemma ThreeSteps(w: World, steps: seq<Step>)
    requires |steps| == 3
    ensures Ran(w, steps) == Stepped(Stepped(Stepped(w, steps[0]), steps[1]), steps[2])
  {
    hide Stepped;
    var w2 := Stepped(Stepped(w, steps[0]), steps[1]);
    assert steps[1..][1..] == [steps[2]] && [steps[2]][1..] == [];
    assert Ran(w2, [steps[2]]) == Ran(Stepped(w2, steps[2]), []);
  }

  /**
    The end of a task reaches the history exactly when fewer than `max` terminal tasks come after it in the store.
    Otherwise the task is evicted before it is persisted, and its row still says it has not ended.
   */
  lemma FinishingIsRecordedExactly(w: World, i: nat, outcome: TaskState, at: Timestamp, summary: string,
                                   detail: Text, max: nat)
    requires Valid(w.store) && HoldsAll(w.mirror, w.store.tasks) && i < |w.store.tasks|
    requires (w.store.tasks[i].state.Running? || w.store.tasks[i].state.Cancelling?) && IsOutcome(outcome)
    ensures var task := w.store.tasks[i];
            var finished := Changed(task, Finish(outcome, at, summary, detail)).value;
            var after := Ran(w, FinishingUpdate(task.id, outcome, at, summary, detail, max));
            if |Terminals(w.store.tasks[i + 1..])| < max then
              && Holds(after.mirror, finished)
              && var row := after.mirror[task.recordId];
                 row.state == outcome && row.finishedAt == Some(at) && row.summary == summary
            else task.recordId in after.mirror && !after.mirror[task.recordId].state.IsTerminal()
  {
    hide Without, Terminals, Surplus, Ids, IsSound, WithDetail, Upserted, DirtyTasks;
    var s := w.store;
    var task := s.tasks[i];
    var change := Finish(outcome, at, summary, detail);
    var finished := Changed(task, change).value;
    var steps := FinishingUpdate(task.id, outcome, at, summary, detail, max);
    var s1 := TaskChanged(s, task.id, change);
    var s2 := Evicted(s1, max);
    assert IndexOf(s.tasks, task.id) == i;
    assert s1.tasks == s.tasks[i := finished] && task.recordId in s1.dirty;
    FinishedIsTerminal(task, change);
    FinishingSettles(task, outcome, at, summary, detail);
    ChangingKeepsValid(s, task.id, change);
    EvictingKeepsValid(s1, max);
    EvictionSparesTheIds(s1, max);
    TerminalSurvivesExactly(s1.tasks, i, max);
    assert s1.tasks[i + 1..] == s.tasks[i + 1..];
    EvictedTasks(s1, max);
    DrainingHoldsExactly(s2.tasks, s2.dirty, w.mirror);
    ThreeSteps(w, steps);
    assert Ran(w, steps).mirror == Upserted(w.mirror, DirtyTasks(s2.tasks, s2.dirty));
    assert Holds(w.mirror, task);
  }

  /** A task still running, and a newer one that has ended; the history holds both. */
  function OvertakenWorld(): World {
    var older := NewTask(1, 1, 0, "", 0, true).(state := Running);
    var newer := NewTask(2, 2, 0, "", 1, true).(state := Succeeded, finishedAt := Some(2));
    World(Store([older, newer], 3, {}, {}, None), map[1 := Row(older), 2 := Row(newer)])
  }

  /** When the older one succeeds and one terminal task may stay, its row goes on saying that it has not ended. */
  lemma OvertakenTaskIsNotRecorded(at: Timestamp, summary: string)
    ensures var w := OvertakenWorld();
            var after := Ran(w, FinishingUpdate(1, Succeeded, at, summary, [], 1));
            && Valid(w.store) && HoldsAll(w.mirror, w.store.tasks)
            && 1 in after.mirror && !after.mirror[1].state.IsTerminal()
  {
    hide Ran, Evicted;
    var w := OvertakenWorld();
    var rest := w.store.tasks[1..];
    assert rest == [w.store.tasks[1]] && rest[1..] == [];
    assert |Terminals(rest)| == 1;
    FinishingIsRecordedExactly(w, 0, Succeeded, at, summary, [], 1);
  }
}
