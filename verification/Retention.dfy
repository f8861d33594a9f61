/**
  How many rows the database keeps of the task history (src/database/task_history.rs): after every upsert it deletes
  the terminal rows beyond a number, the earliest first. Memory evicts to the same number, but by position.
 */
module Retention {
  import opened Wrappers
  import opened Tasks
  import opened TaskStore
  import opened TaskHistory

  // ----- the deletion

  /** Row `q` comes before row `r` in the order of the deletion, by start and then by record id, both descending. */
  predicate After(m: Mirror, q: RecordId, r: RecordId)
    requires q in m && r in m
  {
    m[q].startedAt > m[r].startedAt || (m[q].startedAt == m[r].startedAt && q > r)
  }

  function Later(m: Mirror, r: RecordId): set<RecordId>
    requires r in m
  {
    set q | q in m && m[q].state.IsTerminal() && After(m, q, r)
  }

  predicate IsSurplus(m: Mirror, r: RecordId, max: nat)
    requires r in m
  {
    m[r].state.IsTerminal() && |Later(m, r)| >= max
  }

  /** The rows without the terminal ones past the first `max`. */
  function Pruned(m: Mirror, max: nat): Mirror {
    map r | r in m && !IsSurplus(m, r, max) :: m[r]
  }

  /** `upsert`; an empty batch is not sent. */
  function Persisted(database: Mirror, batch: seq<Task>, max: nat): Mirror {
    if batch == [] then database else Pruned(Upserted(database, batch), max)
  }

  /** The database after a run: every update ends with an upsert of the dirty tasks and its deletion. */
  function Database(database: Mirror, w: World, steps: seq<Step>, max: nat): Mirror
    decreases |steps|
  {
    if steps == [] then database
    else
      var batch := if steps[0].EndUpdate? then DirtyTasks(w.store.tasks, w.store.dirty) else [];
      Database(Persisted(database, batch, max), Stepped(w, steps[0]), steps[1..], max)
  }

  // ----- sizes of sets

  lemma {:induction false} SubsetIsNoLarger<T>(a: set<T>, b: set<T>)
    requires a <= b
    ensures |a| <= |b|
    ensures |a| == |b| ==> a == b
    decreases |a|
  {
    if a != {} {
      var x :| x in a;
      SubsetIsNoLarger(a - {x}, b - {x});
      assert a == (a - {x}) + {x} && b == (b - {x}) + {x};
    }
  }

  lemma LaterNests(m: Mirror, q: RecordId, r: RecordId)
    requires q in m && r in m && m[q].state.IsTerminal() && After(m, q, r)
    ensures Later(m, q) < Later(m, r) && |Later(m, q)| < |Later(m, r)|
  {
    assert q in Later(m, r) && q !in Later(m, q);
    SubsetIsNoLarger(Later(m, q), Later(m, r));
  }

  // ----- what is deleted

  function TerminalRows(m: Mirror): set<RecordId> {
    set q | q in m && m[q].state.IsTerminal()
  }

  /** In any non-empty set of rows there is an earliest one. */
  lemma {:induction false} Earliest(m: Mirror, rows: set<RecordId>) returns (e: RecordId)
    requires rows != {} && rows <= m.Keys
    ensures e in rows && forall q :: q in rows && q != e ==> After(m, q, e)
    decreases |rows|
  {
    var x :| x in rows;
    e := x;
    if rows != {x} {
      var rest := Earliest(m, rows - {x});
      if After(m, x, rest) {
        e := rest;
      } else {
        assert forall q :: q in rows && q != x ==> q == rest || After(m, q, rest);
      }
    }
  }

  lemma KeptAreAtMost(m: Mirror, max: nat)
    requires TerminalRows(Pruned(m, max)) != {}
    ensures |TerminalRows(Pruned(m, max))| <= max
  {
    var kept := TerminalRows(Pruned(m, max));
    var e := Earliest(m, kept);
    SubsetIsNoLarger(kept - {e}, Later(m, e));
  }

  lemma SomeAreSurplus(m: Mirror, max: nat) returns (d: RecordId)
    requires |TerminalRows(m)| > max
    ensures d in m && IsSurplus(m, d, max)
  {
    var rows := TerminalRows(m);
    d := Earliest(m, rows);
    SubsetIsNoLarger(rows - {d}, Later(m, d));
  }

  // ----- deleting after every upsert comes to deleting once

  /** Behind every deleted row there are as many later ones that stay as the limit allows. */
  lemma {:induction false} EnoughStay(m: Mirror, d: RecordId, max: nat)
    requires d in m && IsSurplus(m, d, max)
    ensures |Later(m, d) * Pruned(m, max).Keys| >= max
    decreases |Later(m, d)|
  {
    var stay := Pruned(m, max).Keys;
    if q :| q in Later(m, d) && IsSurplus(m, q, max) {
      LaterNests(m, q, d);
      EnoughStay(m, q, max);
      SubsetIsNoLarger(Later(m, q) * stay, Later(m, d) * stay);
    } else {
      assert Later(m, d) * stay == Later(m, d);
    }
  }

  lemma KeptCount(m: Mirror, max: nat)
    ensures |TerminalRows(Pruned(m, max))| ==
            if |TerminalRows(m)| < max then |TerminalRows(m)| else max
  {
    var rows, kept := TerminalRows(m), TerminalRows(Pruned(m, max));
    SubsetIsNoLarger(kept, rows);
    if |rows| > max {
      var d := SomeAreSurplus(m, max);
      EnoughStay(m, d, max);
      SubsetIsNoLarger(Later(m, d) * Pruned(m, max).Keys, kept);
      if kept != {} {
        KeptAreAtMost(m, max);
      }
    } else {
      forall r | r in rows
        ensures r in kept
      {
        assert r !in Later(m, r);
        SubsetIsNoLarger(Later(m, r) + {r}, rows);
      }
      assert kept == rows;
    }
  }

  /**
    The deletion keeps every row that has not ended, and of the terminal ones the newest: as many as allowed, none
    of them older than a deleted one by its start, nor, on equal starts, by its record id. It changes no row.
   */
  lemma DeletionKeepsTheNewest(m: Mirror, max: nat)
    ensures var kept := Pruned(m, max);
            && (forall r :: r in kept ==> r in m && kept[r] == m[r])
            && (forall r :: r in m && !m[r].state.IsTerminal() ==> r in kept)
            && |TerminalRows(kept)| == (if |TerminalRows(m)| < max then |TerminalRows(m)| else max)
            && (forall d, r :: d in m && d !in kept && r in kept && m[r].state.IsTerminal() ==>
                  m[d].startedAt <= m[r].startedAt && (m[d].startedAt == m[r].startedAt ==> d < r))
  {
    KeptCount(m, max);
    forall d, r | d in m && d !in Pruned(m, max) && r in Pruned(m, max) && m[r].state.IsTerminal()
      ensures m[d].startedAt <= m[r].startedAt && (m[d].startedAt == m[r].startedAt ==> d < r)
    {
      if After(m, d, r) {
        LaterNests(m, d, r);
      }
    }
  }

  /** No row of `m` goes, and terminal ones stay terminal with their place in the order. */
  predicate KeepsTerminals(m: Mirror, n: Mirror) {
    forall q :: q in m ==>
      && q in n && n[q].startedAt == m[q].startedAt
      && (m[q].state.IsTerminal() ==> n[q].state.IsTerminal())
  }

  /** A batch sets the rows of its own records, whatever they were, and no others. */
  lemma {:induction false} UpsertedRow(m: Mirror, n: Mirror, batch: seq<Task>, r: RecordId)
    ensures r !in RecordIds(batch) ==> SameRow(Upserted(m, batch), m, r)
    ensures r in RecordIds(batch) ==>
              && r in Upserted(m, batch) && r in Upserted(n, batch) && Upserted(m, batch)[r] == Upserted(n, batch)[r]
              && exists t :: t in batch && t.recordId == r && Upserted(m, batch)[r] == Row(t)
    decreases |batch|
  {
    hide Row;
    if batch != [] {
      var first, rest := batch[0], batch[1..];
      RecordIdsOf(batch);
      var m', n' := m[first.recordId := Row(first)], n[first.recordId := Row(first)];
      UpsertedRow(m', n', rest, r);
      UpsertedRow(n', m', rest, r);
    }
  }

  lemma LaterGrows(m: Mirror, n: Mirror, r: RecordId)
    requires KeepsTerminals(m, n) && r in m
    ensures |Later(m, r)| <= |Later(n, r)|
  {
    SubsetIsNoLarger(Later(m, r), Later(n, r));
  }

  lemma SurplusStays(m: Mirror, n: Mirror, r: RecordId, max: nat)
    requires KeepsTerminals(m, n) && r in m && IsSurplus(m, r, max)
    ensures IsSurplus(n, r, max)
  {
    LaterGrows(m, n, r);
  }

  /** `part` is `full` without some rows that a deletion from the earlier `m` took. */
  ghost predicate LacksOnlySurplus(m: Mirror, full: Mirror, part: Mirror, max: nat) {
    && (forall r :: r in part ==> r in full && part[r] == full[r])
    && (forall r :: r in full && r !in part ==> r in m && IsSurplus(m, r, max))
    && (forall r :: r in Pruned(m, max) ==> r in part)
  }

  /** The missing rows leave enough behind them: what is surplus stays so, and nothing else becomes it. */
  lemma SurplusEither(m: Mirror, full: Mirror, part: Mirror, r: RecordId, max: nat)
    requires KeepsTerminals(m, full) && LacksOnlySurplus(m, full, part, max) && r in part
    ensures IsSurplus(part, r, max) <==> IsSurplus(full, r, max)
  {
    SubsetIsNoLarger(Later(part, r), Later(full, r));
    if d :| d in Later(full, r) && d !in part {
      EnoughStay(m, d, max);
      var stay := Later(m, d) * Pruned(m, max).Keys;
      assert stay <= Later(part, r);
      SubsetIsNoLarger(stay, Later(part, r));
    } else {
      assert Later(part, r) == Later(full, r);
    }
  }

  lemma UpsertsLackOnlySurplus(m: Mirror, batch: seq<Task>, max: nat)
    ensures LacksOnlySurplus(m, Upserted(m, batch), Upserted(Pruned(m, max), batch), max)
  {
    hide Upserted, RecordIds, Row, IsSurplus;
    var p := Pruned(m, max);
    forall r: RecordId
      ensures r in Upserted(p, batch) ==> r in Upserted(m, batch) && Upserted(p, batch)[r] == Upserted(m, batch)[r]
      ensures r in Upserted(m, batch) && r !in Upserted(p, batch) ==> r in m && IsSurplus(m, r, max)
      ensures r in p ==> r in Upserted(p, batch)
    {
      UpsertedRow(m, p, batch, r);
      UpsertedRow(p, m, batch, r);
    }
  }

  /** What deleting first takes away would have been deleted in the end, and takes no row's place in the count. */
  lemma PruningCommutes(m: Mirror, batch: seq<Task>, max: nat)
    requires KeepsTerminals(m, Upserted(m, batch))
    ensures Pruned(Upserted(Pruned(m, max), batch), max) == Pruned(Upserted(m, batch), max)
  {
    hide Upserted, IsSurplus;
    var full, part := Upserted(m, batch), Upserted(Pruned(m, max), batch);
    UpsertsLackOnlySurplus(m, batch, max);
    forall r | r in full
      ensures r in part ==> (IsSurplus(part, r, max) <==> IsSurplus(full, r, max))
      ensures r !in part ==> IsSurplus(full, r, max)
    {
      if r in part {
        SurplusEither(m, full, part, r, max);
      } else {
        SurplusStays(m, full, r, max);
      }
    }
  }

  // ----- what the database holds

  /** A task in memory has the start of its row, and has ended if its row says so. */
  predicate Follows(w: World) {
    forall k :: 0 <= k < |w.store.tasks| && w.store.tasks[k].recordId in w.mirror ==>
      var task := w.store.tasks[k];
      var row := w.mirror[task.recordId];
      task.startedAt == row.startedAt && (row.state.IsTerminal() ==> task.state.IsTerminal())
  }

  lemma HoldingAllFollows(w: World)
    requires HoldsAll(w.mirror, w.store.tasks)
    ensures Follows(w)
  {
    assert forall k :: 0 <= k < |w.store.tasks| ==> Holds(w.mirror, w.store.tasks[k]);
  }

  lemma {:induction false} DirtyTasksAreTasks(tasks: seq<Task>, dirty: set<RecordId>)
    ensures forall t :: t in DirtyTasks(tasks, dirty) ==> t in tasks
    decreases |tasks|
  {
    if tasks != [] {
      DirtyTasksAreTasks(tasks[1..], dirty);
    }
  }

  /** The row of a record after an update: as it was, or that of a task in memory. */
  lemma DrainedRow(w: World, r: RecordId)
    ensures var after := Stepped(w, EndUpdate).mirror;
            || SameRow(after, w.mirror, r)
            || (r in after && exists t :: t in w.store.tasks && t.recordId == r && after[r] == Row(t))
  {
    hide Upserted, DirtyTasks, RecordIds, Row;
    UpsertedRow(w.mirror, w.mirror, DirtyTasks(w.store.tasks, w.store.dirty), r);
    DirtyTasksAreTasks(w.store.tasks, w.store.dirty);
  }

  lemma EndUpdateKeepsTerminals(w: World)
    requires Follows(w)
    ensures KeepsTerminals(w.mirror, Stepped(w, EndUpdate).mirror)
  {
    hide Stepped;
    forall q | q in w.mirror
      ensures var after := Stepped(w, EndUpdate).mirror;
              && q in after && after[q].startedAt == w.mirror[q].startedAt
              && (w.mirror[q].state.IsTerminal() ==> after[q].state.IsTerminal())
    {
      DrainedRow(w, q);
    }
  }

  lemma EndUpdateFollows(w: World)
    requires Valid(w.store) && Follows(w)
    ensures Follows(Stepped(w, EndUpdate))
  {
    hide IsSound, Ids, DistinctIdsBelow, Upserted, DirtyTasks;
    var after := Stepped(w, EndUpdate);
    forall k | 0 <= k < |after.store.tasks| && after.store.tasks[k].recordId in after.mirror
      ensures var task := after.store.tasks[k];
              var row := after.mirror[task.recordId];
              task.startedAt == row.startedAt && (row.state.IsTerminal() ==> task.state.IsTerminal())
    {
      DrainedRow(w, after.store.tasks[k].recordId);
    }
  }

  lemma MergingFollows(w: World, restored: seq<Task>)
    requires Valid(w.store) && Follows(w) && LawfulStep(w, Do(Merge(restored)))
    ensures Follows(Stepped(w, Do(Merge(restored))))
  {
    hide IsSound, Ids, DistinctIdsBelow, DistinctRecords, Merged, Unknown;
    var s, s' := w.store, Merged(w.store, restored);
    var unknown := Unknown(restored, RecordIds(s.tasks));
    MergedTasks(s, restored);
    UnknownAreTheNewOnes(restored, RecordIds(s.tasks));
    forall k | 0 <= k < |s'.tasks|
      ensures k < |unknown| ==> Holds(w.mirror, s'.tasks[k])
      ensures k >= |unknown| ==> s'.tasks[k] == s.tasks[k - |unknown|]
    {
      if k < |unknown| {
        assert Row(s'.tasks[k]) == Row(unknown[k]) && unknown[k] in restored;
      } else {
        assert s'.tasks[|unknown|..][k - |unknown|] == s'.tasks[k];
      }
    }
  }

  lemma StepFollows(w: World, step: Step)
    requires Valid(w.store) && Follows(w) && LawfulStep(w, step)
    ensures Follows(Stepped(w, step))
  {
    hide IsSound, Ids, DistinctIdsBelow, DistinctRecords, Changed, Merged, Evicted, Upserted, DirtyTasks;
    match step
    case EndUpdate => EndUpdateFollows(w);
    case Do(op) =>
      match op {
        case ChangeTask(id, change) => ChangingKeepsValid(w.store, id, change);
        case Merge(restored) => MergingFollows(w, restored);
        case Evict(max) =>
          EvictingKeepsValid(w.store, max);
          var after := Evicted(w.store, max).tasks;
          assert forall k :: 0 <= k < |after| ==> after[k] in after && after[k] in w.store.tasks;
        case _ =>
      }
  }

  /** In every run the database holds the history but for its surplus terminal rows: deleting once comes to the same. */
  lemma {:induction false} DatabaseIsPrunedHistory(w: World, steps: seq<Step>, max: nat)
    requires Valid(w.store) && HoldsClean(w) && Follows(w) && LawfulRun(w, steps)
    ensures Database(Pruned(w.mirror, max), w, steps, max) == Pruned(Ran(w, steps).mirror, max)
    decreases |steps|
  {
    hide Valid, HoldsClean, Follows, LawfulStep, Pruned, KeepsTerminals;
    if steps != [] {
      StepKeepsHistory(w, steps[0]);
      StepFollows(w, steps[0]);
      if steps[0].EndUpdate? {
        EndUpdateKeepsTerminals(w);
        PruningCommutes(w.mirror, DirtyTasks(w.store.tasks, w.store.dirty), max);
      }
      DatabaseIsPrunedHistory(Stepped(w, steps[0]), steps[1..], max);
    }
  }

  /**
    So at the end of every update the database holds a task in memory exactly when the task has not ended or fewer
    than `max` terminal rows of the history are later.
   */
  lemma DatabaseHoldsExactly(w: World, steps: seq<Step>, max: nat, k: nat)
    requires Valid(w.store) && HoldsClean(w) && Follows(w) && LawfulRun(w, steps)
    requires steps != [] && steps[|steps| - 1].EndUpdate? && k < |Ran(w, steps).store.tasks|
    ensures var after := Ran(w, steps);
            var task := after.store.tasks[k];
            && Holds(after.mirror, task)
            && (Holds(Database(Pruned(w.mirror, max), w, steps, max), task) <==>
                  !task.state.IsTerminal() || |Later(after.mirror, task.recordId)| < max)
  {
    hide Valid, HoldsClean, Follows, LawfulRun, Ran, Database, Later;
    HistoryFollowsMemory(w, steps);
    DatabaseIsPrunedHistory(w, steps, max);
  }

  // ----- the two limits

  /** The records of the terminal tasks. */
  function TerminalRecords(tasks: seq<Task>): set<RecordId> {
    set k | 0 <= k < |tasks| && tasks[k].state.IsTerminal() :: tasks[k].recordId
  }

  lemma TerminalRecordsOf(tasks: seq<Task>)
    requires tasks != []
    ensures TerminalRecords(tasks) ==
            TerminalRecords(tasks[1..]) + if tasks[0].state.IsTerminal() then {tasks[0].recordId} else {}
  {
    var rest := tasks[1..];
    assert forall k :: 0 <= k < |rest| ==> rest[k] == tasks[k + 1];
    assert forall k :: 0 < k < |tasks| ==> tasks[k] == rest[k - 1];
  }

  lemma DropKeepsDistinct(tasks: seq<Task>, i: nat)
    requires DistinctRecords(tasks) && i <= |tasks|
    ensures DistinctRecords(tasks[i..])
  {
  }

  lemma {:induction false} CountTerminals(tasks: seq<Task>)
    requires DistinctRecords(tasks)
    ensures |TerminalRecords(tasks)| == |Terminals(tasks)|
    decreases |tasks|
  {
    if tasks != [] {
      var first, rest := tasks[0], tasks[1..];
      assert first.recordId !in TerminalRecords(rest) by {
        assert forall k :: 0 <= k < |rest| ==> rest[k] == tasks[k + 1];
      }
      DropKeepsDistinct(tasks, 1);
      hide TerminalRecords, DistinctRecords;
      TerminalRecordsOf(tasks);
      CountTerminals(rest);
    }
  }

  /** Eviction spares this terminal task. */
  predicate StaysInMemory(tasks: seq<Task>, i: nat, max: nat)
    requires i < |tasks|
  {
    tasks[i] in Without(tasks, Surplus(tasks, max))
  }

  /** The deletion spares its row. */
  predicate StaysInDatabase(m: Mirror, tasks: seq<Task>, i: nat, max: nat)
    requires i < |tasks|
  {
    tasks[i].recordId in Pruned(m, max)
  }

  /** Whatever the limit, memory and database keep the same of the terminal tasks. */
  ghost predicate RetentionsAgree(m: Mirror, tasks: seq<Task>) {
    forall i, max :: 0 <= i < |tasks| && 0 <= max && tasks[i].state.IsTerminal() ==>
      (StaysInMemory(tasks, i, max) <==> StaysInDatabase(m, tasks, i, max))
  }

  /** The terminal tasks stand in the order of the deletion. */
  predicate InOrder(m: Mirror, tasks: seq<Task>)
    requires HoldsAll(m, tasks)
  {
    forall i, j :: 0 <= i < j < |tasks| && tasks[i].state.IsTerminal() && tasks[j].state.IsTerminal() ==>
      After(m, tasks[j].recordId, tasks[i].recordId)
  }

  /** No terminal row of a task that is not in memory is later than one that is. */
  predicate NoneLaterOutside(m: Mirror, tasks: seq<Task>)
    requires HoldsAll(m, tasks)
  {
    forall q, i | q in m && q !in RecordIds(tasks) && 0 <= i < |tasks| ::
      m[q].state.IsTerminal() && tasks[i].state.IsTerminal() ==> !After(m, q, tasks[i].recordId)
  }

  lemma StaysInMemoryExactly(tasks: seq<Task>, i: nat, max: nat)
    requires DistinctRecords(tasks) && i < |tasks| && tasks[i].state.IsTerminal()
    ensures StaysInMemory(tasks, i, max) <==> |Terminals(tasks[i + 1..])| < max
  {
    hide Terminals, Without, Surplus, DistinctRecords;
    TerminalSurvivesExactly(tasks, i, max);
  }

  /** The two limits count the same exactly when as many terminal rows are later as terminal tasks come after. */
  lemma AgreementByCounts(m: Mirror, tasks: seq<Task>)
    requires DistinctRecords(tasks) && HoldsAll(m, tasks)
    ensures RetentionsAgree(m, tasks) <==>
              forall i :: 0 <= i < |tasks| && tasks[i].state.IsTerminal() ==>
                |Later(m, tasks[i].recordId)| == |Terminals(tasks[i + 1..])|
  {
    hide Terminals, Without, Surplus, Later, DistinctRecords, RecordIds;
    forall i, max: nat | 0 <= i < |tasks| && tasks[i].state.IsTerminal()
      ensures StaysInMemory(tasks, i, max) <==> |Terminals(tasks[i + 1..])| < max
      ensures StaysInDatabase(m, tasks, i, max) <==> |Later(m, tasks[i].recordId)| < max
    {
      StaysInMemoryExactly(tasks, i, max);
      assert Holds(m, tasks[i]);
    }
    if RetentionsAgree(m, tasks) {
      forall i | 0 <= i < |tasks| && tasks[i].state.IsTerminal()
        ensures |Later(m, tasks[i].recordId)| == |Terminals(tasks[i + 1..])|
      {
        var later, after := |Later(m, tasks[i].recordId)|, |Terminals(tasks[i + 1..])|;
        assert StaysInMemory(tasks, i, after + 1) <==> StaysInDatabase(m, tasks, i, after + 1);
        assert StaysInMemory(tasks, i, after) <==> StaysInDatabase(m, tasks, i, after);
      }
    }
  }

  lemma LaterComeAfter(m: Mirror, tasks: seq<Task>, i: nat, q: RecordId)
    requires HoldsAll(m, tasks) && InOrder(m, tasks) && NoneLaterOutside(m, tasks)
    requires i < |tasks| && tasks[i].state.IsTerminal() && tasks[i].recordId in m
    requires q in Later(m, tasks[i].recordId)
    ensures q in TerminalRecords(tasks[i + 1..])
  {
    var k :| 0 <= k < |tasks| && tasks[k].recordId == q;
    assert Holds(m, tasks[k]);
    assert k > i;
    assert tasks[i + 1..][k - i - 1] == tasks[k];
  }

  lemma TheseComeLater(m: Mirror, tasks: seq<Task>, i: nat, q: RecordId)
    requires HoldsAll(m, tasks) && InOrder(m, tasks)
    requires i < |tasks| && tasks[i].state.IsTerminal() && tasks[i].recordId in m
    requires q in TerminalRecords(tasks[i + 1..])
    ensures q in Later(m, tasks[i].recordId)
  {
    var rest := tasks[i + 1..];
    var k :| 0 <= k < |rest| && rest[k].state.IsTerminal() && rest[k].recordId == q;
    assert rest[k] == tasks[i + 1 + k];
    assert Holds(m, tasks[i + 1 + k]);
  }

  /** In that order, and with nothing later outside, the later rows are those of the tasks that come after. */
  lemma OrderedLater(m: Mirror, tasks: seq<Task>, i: nat)
    requires HoldsAll(m, tasks) && InOrder(m, tasks) && NoneLaterOutside(m, tasks)
    requires i < |tasks| && tasks[i].state.IsTerminal() && tasks[i].recordId in m
    ensures Later(m, tasks[i].recordId) == TerminalRecords(tasks[i + 1..])
  {
    hide HoldsAll, InOrder, NoneLaterOutside, TerminalRecords, Later;
    forall q | q in Later(m, tasks[i].recordId)
      ensures q in TerminalRecords(tasks[i + 1..])
    {
      LaterComeAfter(m, tasks, i, q);
    }
    forall q | q in TerminalRecords(tasks[i + 1..])
      ensures q in Later(m, tasks[i].recordId)
    {
      TheseComeLater(m, tasks, i, q);
    }
  }

  lemma FewerComeAfter(tasks: seq<Task>, i: nat, j: nat)
    requires i < j < |tasks| && tasks[j].state.IsTerminal()
    ensures |Terminals(tasks[j + 1..])| < |Terminals(tasks[i + 1..])|
  {
    var rest := tasks[i + 1..];
    TerminalsSplit(rest, j - i - 1);
    assert rest[j - i - 1..][0] == tasks[j] && rest[j - i - 1..][1..] == tasks[j + 1..];
  }

  lemma OrderLeavesNoRoom(m: Mirror, tasks: seq<Task>, i: nat)
    requires DistinctRecords(tasks) && HoldsAll(m, tasks) && InOrder(m, tasks)
    requires i < |tasks| && tasks[i].state.IsTerminal()
    requires |Later(m, tasks[i].recordId)| == |Terminals(tasks[i + 1..])|
    ensures forall q :: q in m && q !in RecordIds(tasks) && m[q].state.IsTerminal() ==>
              !After(m, q, tasks[i].recordId)
  {
    hide Terminals;
    var r, rest := tasks[i].recordId, tasks[i + 1..];
    assert forall k :: 0 <= k < |tasks| ==> Holds(m, tasks[k]);
    assert forall k :: 0 <= k < |rest| ==> rest[k] == tasks[i + 1 + k];
    DropKeepsDistinct(tasks, i + 1);
    CountTerminals(rest);
    SubsetIsNoLarger(TerminalRecords(rest), Later(m, r));
    forall q | q in Later(m, r)
      ensures q in RecordIds(tasks)
    {
      var k :| 0 <= k < |rest| && rest[k].recordId == q;
      assert tasks[i + 1 + k].recordId == q;
    }
  }

  /** Equal counts leave no other order, and no later row outside. */
  lemma CountsForceOrder(m: Mirror, tasks: seq<Task>)
    requires DistinctRecords(tasks) && HoldsAll(m, tasks)
    requires forall i :: 0 <= i < |tasks| && tasks[i].state.IsTerminal() ==>
               |Later(m, tasks[i].recordId)| == |Terminals(tasks[i + 1..])|
    ensures InOrder(m, tasks) && NoneLaterOutside(m, tasks)
  {
    hide Terminals, Later;
    assert forall k :: 0 <= k < |tasks| ==> Holds(m, tasks[k]);
    forall i, j | 0 <= i < j < |tasks| && tasks[i].state.IsTerminal() && tasks[j].state.IsTerminal()
      ensures After(m, tasks[j].recordId, tasks[i].recordId)
    {
      FewerComeAfter(tasks, i, j);
      if After(m, tasks[i].recordId, tasks[j].recordId) {
        LaterNests(m, tasks[i].recordId, tasks[j].recordId);
      }
    }
    forall i | 0 <= i < |tasks| && tasks[i].state.IsTerminal()
      ensures forall q :: q in m && q !in RecordIds(tasks) && m[q].state.IsTerminal() ==>
                !After(m, q, tasks[i].recordId)
    {
      OrderLeavesNoRoom(m, tasks, i);
    }
  }

  /**
    Memory and database keep the same of the terminal tasks, whatever the limit, exactly when these stand in memory
    in the order of the deletion and no terminal row from outside memory is later than one of them.
   */
  lemma RetentionsAgreeExactly(m: Mirror, tasks: seq<Task>)
    requires DistinctRecords(tasks) && HoldsAll(m, tasks)
    ensures RetentionsAgree(m, tasks) <==> InOrder(m, tasks) && NoneLaterOutside(m, tasks)
  {
    hide Terminals, Later, InOrder, NoneLaterOutside, DistinctRecords;
    AgreementByCounts(m, tasks);
    if InOrder(m, tasks) && NoneLaterOutside(m, tasks) {
      forall i | 0 <= i < |tasks| && tasks[i].state.IsTerminal()
        ensures |Later(m, tasks[i].recordId)| == |Terminals(tasks[i + 1..])|
      {
        assert Holds(m, tasks[i]);
        OrderedLater(m, tasks, i);
        DropKeepsDistinct(tasks, i + 1);
        CountTerminals(tasks[i + 1..]);
      }
    } else if RetentionsAgree(m, tasks) {
      CountsForceOrder(m, tasks);
    }
  }
}
