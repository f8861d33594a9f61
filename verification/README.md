# Tale: a verified model of its protocols, stores and text algorithms

Tale is a terminal workspace for a tailnet. This project models the parts of it that carry real invariants and proves
what they promise, for every input and every run.

- **Policy save** (`PolicySave.dfy`, `AdminErrors.dfy`). The optimistic save of the tailnet policy is a state machine:
  the client's decisions, one conditional save, other writers, and a network that loses and delays messages. The server
  is assumed to honour If-Match (section 13.1.1 of RFC 9110) and never to reuse an entity tag for other content
  (section 8.8.3 of RFC 9110). A success reply means the save took effect; an error outside the ambiguous classes means
  it did not and will not. The hash is any function; only one corollary needs it to be injective.
- **Verification polling** (`Verification.dfy`). The two poll loops run against an arbitrary course of events with a clock
  that never runs backwards and sleeps that never end early; the reconciliation of a write with its verification follows.
- **Task store** (`Tasks.dfy`, `TaskStore.dfy`, `TaskHistory.dfy`). The store is a class whose methods are proved against a
  specification on values; runs of that specification keep the store's invariant, the life of each task and the agreement
  with the persisted history. New record ids (version 7 UUIDs) are parameters, assumed new.
- **Retention** (`Retention.dfy`). The database deletes old terminal rows after every upsert. The history of `TaskHistory.dfy`
  is the one without these deletions; the database is proved to hold, in every run, exactly that history less its surplus.
- **Bounded text** (`Utf8.dfy`, `Detail.dfy`). Rust strings are bytes that are well-formed UTF-8 (sections 3 and 4 of
  RFC 3629), with a decoder proved inverse to the encoder both ways. Truncation to both ends and the streaming buffer are
  exact, and the cost of streaming is proved by a potential.
- **Line editor** (`LineEditor.dfy`, `Whitespace.dfy`). The editor on bytes and a byte offset refines a gap between two
  strings of scalars.
- **Event queue** (`EventQueue.dfy`). Send attempts and receives are atomic steps of any number of senders and one receiver.
- **Footer, key sequences, history, list fields, durations** (`Footer.dfy`, `TransientKeys.dfy`, `ViewHistory.dfy`,
  `ListField.dfy`, `Durations.dfy`; `Indices.dfy` and `Wrappers.dfy` are shared).

Where Rust indexes a string, a list or a row that its caller must have kept in range, the model has a precondition; where
Rust handles the case, so does the model. Lengths and offsets are unbounded here: a Rust string or vector cannot grow to
where the saturating additions on `usize` would matter. The two 64-bit limits that can matter, the task id counter and the
milliseconds of a duration, are modelled as they are.

## Findings

Six things the code does differ from what one would first write down; each is kept as it is and stated exactly.

- The key-sequence validator compares `candidate.len()`, a number of bytes, with two. So among usable sequences its
  verdict is the right one, acceptance of exactly the prefix-free sets, if and only if two sequences are equal, or some
  one-key sequence is the first key of an ASCII pair, or there are both or neither of a lone two-byte key, which it
  refuses wrongly, and a one-key sequence that is the first key of a pair of more than two bytes, which it misses
  (`JudgedRightlyExactly`; `LoneWideKeyIsRefused` and `WidePairIsMissed` are the two failures). For ASCII sequences it is
  always right (`AcceptsExactlyPrefixFree`), and the fixed table of the program holds nothing else.
- The menu handler takes `?` as the help key wherever it comes, and ignores every key that arrives with a modifier, as
  capitals do with Shift (elsewhere in the program Shift does not count); and it too counts bytes before it waits for a
  second key. The validator knows nothing of the first two. So an action of an accepted menu is reached by its sequence
  exactly when it is available, no key of the sequence is `?` or arrives with a modifier, and, for a pair, the menu waits
  after its first key (`ReachableExactly`), which in ASCII it always does (`AsciiReachableExactly`). `HelpKeyHidesAPair`,
  `CapitalIsIgnored` and `WidePairIsNotWaitedFor` are accepted menus with an action out of reach. The fixed table has no
  `?`, no capital and no such pair.
- When a task ends, the program evicts surplus terminal tasks in the same update and only then collects what is to be
  persisted, from the tasks still in memory. So the end of a task reaches the history exactly when fewer than the allowed
  number of terminal tasks come after it in the store; otherwise its row keeps saying that it has not ended
  (`FinishingIsRecordedExactly`). Over a run, the history keeps the last state of every task exactly when each evicted one
  was held when it was evicted (`HistoryKeepsThePastExactly`), for which it is enough that no dirty task is evicted
  (`EvictingCleanLosesNothing`). `OvertakenTaskIsNotRecorded` is such a loss with two tasks.
- Opening the secret field of a form replaces the secret by an empty one, and giving up the edit does not put it back.
  Abandoning restores the form exactly for the fields that are not secret (`AbandoningRestoresExactly`); a secret entered
  before is replaced by what was typed since (`AbandonedSecretIsReplaced`).
- Merging restored records keeps memory and history in agreement exactly when each record not yet known is still current
  in the history or about to be persisted (`MergingKeepsHistoryExactly`, `MergedHistoryAgreesExactly`). Merging a stale
  batch after an eviction breaks it (`StaleBatchPartsThem`); the single load at the start cannot become stale
  (`RestoringMayComeLate`).
- `reconcile_operational_write` on its own reports an unknown outcome for a refused write whose verification succeeds when
  the secret is lost (`ReconcilingARefusal`); its callers return before that (`RunOperationalWrite`).

Task ids saturate at the largest 64-bit number; the store's invariant survives creation and merging exactly until then
(`CreatingKeepsValidExactly`, `MergingKeepsValidExactly`).

## Model

| member | source | states |
|---|---|---|
| PolicySave.NoLostUpdate | src/runtime.rs:1876-2003 | in every interleaving, a save that takes effect replaces a document hashing to the expected base by validated bytes hashing to the expected candidate |
| PolicySave.NothingElseIsReplaced | src/runtime.rs:1876-2003 | with an injective hash, those are the very base and candidate of the edit |
| PolicySave.OutcomesAreSound | src/runtime.rs:1876-2028 | what each outcome says of the save and of the last reply: success means a read returned the candidate, an unverified success that the save took effect, a conflict or failure that it did not |
| PolicySave.OutcomesByLastReply | src/runtime.rs:1876-2028 | failure, success, unverified success and unknown occur in exactly these cases of the last reply |
| PolicySave.OutcomesByTheLog | src/runtime.rs:1876-2028 | every outcome from the answers alone, from the candidate file to the last read: how many there were, what each was, and what is reported for them |
| PolicySave.TheAnswerDecides | src/runtime.rs:1963-1991 | an unknown outcome only follows a success or an ambiguous error in answer to the save; a conflict ends as a remote conflict with the bytes last read if they parse and else as a failure; any other definite error ends as a failure |
| PolicySave.SentOnlyWhenCleared | src/runtime.rs:1876-1962 | a save is only sent after the candidate file, a granted authorization, a read of the base and a positive validation; it is that file, guarded by the tag of that read |
| AdminErrors.ErrorsAreSorted | src/runtime.rs:2030-2041 | every error is definite or ambiguous; only a rate limit is ambiguous for a policy save and definite for an operational write; what is retried is never definite |
| PolicySave.RefusedSaveNeverTakesEffect | src/runtime.rs:1963-1991 | after a reported failure or conflict the save never takes effect, however the run goes on |
| PolicySave.DoneIsFinal | src/runtime.rs:1876-2003 | a reported outcome stands |
| PolicySave.RunKeepsInvariant | src/runtime.rs:1876-2041 | the invariant behind these results holds in every reachable state |
| PolicySave.QuietSaveSucceeds | src/runtime.rs:1876-2019 | in every run without other writers and losses in which the client hears only what it hopes for, a save that is done has succeeded, has replaced the base by the candidate, and the server holds the candidate |
| PolicySave.QuietRunCanFinish | src/runtime.rs:1876-2019 | and every such run can be completed by such steps |
| PolicySave.UnknownIsUnknowable | src/runtime.rs:2020-2027 | two runs tell the client the same, one with an effective save and one without, and both end as unknown |
| PolicySave.SuccessMayBeAnothersWrite | src/runtime.rs:2013-2016 | success only means the server held the candidate: this run's save may have been lost |
| PolicySave.ConfirmedSaveMayBeReportedUnknown | src/runtime.rs:2024-2026 | a confirmed save whose verification read fails is reported as unknown |
| Verification.ChecksAreSpaced | src/runtime.rs:2745-2769 | check number i starts at or past the deadline, or at least i poll intervals after the start |
| Verification.LastCheckSettles | src/runtime.rs:67-68 | the 121st check ends every poll |
| Verification.AllChecksMayBeNeeded | src/runtime.rs:67-68 | and some poll needs all 121 |
| Verification.PollOperationalCheck | src/runtime.rs:2741-2770 | at most 121 checks; all before the last were inconclusive and over before the deadline; the last one decides, and gives up on a mismatch or retryable error only at or past the deadline |
| Verification.VerifyAdminChangeUntil | src/runtime.rs:4462-4498 | the same for admin changes: confirmed exactly when the last check verified, unconfirmed exactly when it mismatched at or past the deadline, an error exactly when it failed or a cancellation came during a sleep |
| Verification.SleepsExactly | src/runtime.rs:2760-2768 | a sleep is a poll interval long or as long as is left, and past the deadline there is none |
| Verification.RunOperationalWrite | src/runtime.rs:2874-2939 | a result is verified, unverified, unknown or refused exactly according to the write's answer, the secret it may have lost, and the last check |
| Verification.ReconcilingARefusal | src/runtime.rs:2772-2803 | when reconciliation alone reports a refused write as refused |
| TaskHistory.RunsKeepValid | src/task.rs:152-482 | over every run ids stay distinct and below the next one, session ids and selection name stored tasks, tasks created here have an end time exactly when terminal and a bounded detail, and surviving tasks only advance |
| TaskHistory.EmptyStoreIsValid | src/task.rs:141-150 | a new store satisfies the invariant |
| TaskHistory.OpKeepsValid | src/task.rs:356-482 | each operation keeps that invariant |
| TaskHistory.OpEvolves | src/task.rs:356-482 | each operation only advances the tasks it leaves in the store and reuses no id |
| TaskHistory.EveryEndHasItsCause | src/task.rs:411-453 | over every run, a terminal task had its outcome, end time and summary before, or got these very ones from a finish of it while it ran or was being cancelled, or from a restored record |
| TaskHistory.CanChangeExactly | src/task.rs:240-453 | the answer of a change: whether there is such a task and its state takes the change |
| TaskHistory.ChangingTouchesOne | src/task.rs:188-200 | a change touches and marks the one task with the id, and else nothing |
| TaskHistory.CreatingQueues | src/task.rs:152-186 | what a new task is, and what creating it changes beside |
| Tasks.ChangesAdvance | src/task.rs:356-453 | a change moves a task along queued, running, cancelling, terminal; a terminal task keeps its state, end time, summary, detail and progress |
| Tasks.StartingRuns | src/task.rs:356-367 | only a queued task is started; it then runs, and nothing else of it changes |
| Tasks.ReportingIsTaken | src/task.rs:369-380 | progress is taken exactly while a task runs or is being cancelled; only progress and detail change |
| Tasks.CancellingIsAsked | src/task.rs:382-409 | exactly a cancellable queued or running task becomes cancelling; only state and summary change |
| Tasks.FinishingSettles | src/task.rs:433-453 | exactly a running or cancelling task is finished, with the outcome, end time and summary given; beside the detail nothing else changes |
| Tasks.SettersSet | src/task.rs:240-292 | each setter sets its own fields only, in any state |
| Tasks.DetailIsAppended | src/task.rs:540-550 | detail is added on a new line, whole while it fits and otherwise cut to both ends; nothing else of the task changes |
| TaskHistory.CreatingKeepsValidExactly | src/task.rs:152-186 | creation keeps the invariant exactly until ids run out, for a new record id |
| TaskHistory.MergingKeepsValidExactly | src/task.rs:211-227 | merging keeps it exactly while there are ids for the new records and these are distinct |
| TaskHistory.MergeConserves | src/task.rs:211-227 | a merge prepends exactly the restored tasks with unknown records: each stands at the count of such tasks before it, so in the order they came, under consecutive new ids; the tasks in memory, the dirty set and the session stay, and the last task is selected if none was |
| TaskHistory.EvictionKeepsTheNewest | src/task.rs:455-482 | eviction drops the terminal tasks before one point and nothing else, leaving every active task and the newest terminal ones, as many as allowed |
| TaskHistory.EvictionKeepsOrder | src/task.rs:455-482 | eviction reorders nothing |
| TaskHistory.EvictionKeepsBooks | src/task.rs:455-482 | eviction forgets the session ids of the tasks it drops, and selects the last task exactly if it drops the selected one |
| TaskHistory.EvictingKeepsValid | src/task.rs:455-482 | eviction keeps the invariant and adds no task |
| TaskHistory.SelectingKeepsValid | src/task.rs:305-347 | every selection names a stored task or nothing |
| TaskHistory.FilteredInOrder | src/task.rs:339-346 | each task a query matches is listed at the count of those before it, so in the order of the store |
| TaskHistory.StepMovesWithin | src/task.rs:318-337 | a step moves by the offset within the list and stops at its ends |
| TaskHistory.SelectingTakesFromTheList | src/task.rs:305-337 | what each selection takes from the list, and when it selects nothing; nothing else changes |
| TaskHistory.HistoryFollowsMemory | src/app.rs:2011-2019 | at the end of every update of every run the history holds every task in memory; the history is here taken before the database's own deletions, which `Retention.DatabaseIsPrunedHistory` accounts for |
| TaskHistory.RowIsAllButTheId | src/database/task_history.rs:276-343 | all of a task is persisted but the id it has in the session |
| TaskHistory.HistoryKeepsThePastExactly | src/app.rs:2011-2019 | it also holds the last state of every task evicted in the run, exactly when each eviction dropped only tasks the history already held; no later update makes up for it |
| TaskHistory.EvictingCleanLosesNothing | src/task.rs:455-482 | evicting no dirty task is enough for that |
| TaskHistory.DirtyInOrder | src/task.rs:202-209 | exactly the dirty tasks are taken for persisting, in the order of the store |
| TaskHistory.FinishingIsRecordedExactly | src/app/task_reducer.rs:233-250 | the end of a task, evicted and persisted in one update, reaches the history, with its outcome, end time and summary, exactly when fewer than the allowed number of terminal tasks come after it; otherwise its row still says it has not ended |
| TaskHistory.OvertakenTaskIsNotRecorded | src/app/task_reducer.rs:233-250 | a state of two tasks in which the end of the older one is not recorded |
| TaskHistory.TerminalSurvivesExactly | src/task.rs:455-482 | which terminal tasks eviction spares: those with fewer than the allowed number of terminal tasks after them |
| TaskHistory.DrainingHoldsExactly | src/task.rs:202-209 | after persisting, the history holds a task exactly when it was dirty or held before; no other row is touched |
| TaskHistory.EndUpdateHoldsAllExactly | src/app.rs:2011-2019 | the end of an update brings history and memory into agreement exactly when only dirty tasks were out of it |
| TaskHistory.MergingKeepsHistoryExactly | src/task.rs:211-227 | after a merge every task that is not dirty is held exactly when each unknown record is dirty or held |
| TaskHistory.MergedHistoryAgreesExactly | src/task.rs:211-227 | and exactly then history and memory agree after the next persist |
| TaskHistory.RestoringMayComeLate | src/database/task_history.rs:95-108 | the records loaded at the start are still current in the history, before the database's own deletions, whenever their merge arrives |
| TaskHistory.StaleBatchPartsThem | src/task.rs:211-227 | merging a batch with an outdated record leaves history and memory different after the next persist |
| Retention.DatabaseIsPrunedHistory | src/database/task_history.rs:256-273 | in every run, upserting each update's dirty tasks and deleting surplus terminal rows every time leaves exactly the history less the surplus terminal rows it has in the end |
| Retention.PruningCommutes | src/database/task_history.rs:256-273 | deleting before an upsert and again after it comes to deleting once after it |
| Retention.EnoughStay | src/database/task_history.rs:261-270 | a row is deleted only if at least as many later terminal rows as the limit stay |
| Retention.DeletionKeepsTheNewest | src/database/task_history.rs:261-270 | the deletion keeps all rows that have not ended and, of the terminal ones, as many as allowed, none started before a deleted one or, on equal starts, with a smaller record id |
| Retention.DatabaseHoldsExactly | src/app.rs:2011-2019 | at the end of every update the database holds a task in memory exactly when it has not ended or fewer than the limit of terminal rows are later |
| Retention.RetentionsAgreeExactly | src/database/task_history.rs:261-270 | memory and database keep the same of the terminal tasks, whatever the limit, exactly when these stand in memory in the order of the deletion and no terminal row from outside memory is later than one of them |
| TaskStore.TaskStore.Create | src/task.rs:152-186 | appends a queued task under the next id, marks it and selects it if nothing was selected |
| TaskStore.TaskStore.Find | src/task.rs:188-194 | finds the first task with the id, or none |
| TaskStore.TaskStore.Start | src/task.rs:356-367 | a queued task runs; any other call changes nothing |
| TaskStore.TaskStore.Report | src/task.rs:369-380 | a running or cancelling task takes the progress and the bounded detail |
| TaskStore.TaskStore.RequestCancel | src/task.rs:382-409 | a cancellable active task is being cancelled; the answer is whether the task now is |
| TaskStore.TaskStore.Finish | src/task.rs:433-453 | a running or cancelling task ends; terminal and queued ones stay |
| TaskStore.TaskStore.SetChanges | src/task.rs:240-247 | stores the changes and marks the task |
| TaskStore.TaskStore.SetLocalMetadata | src/task.rs:261-274 | stores the metadata and marks the task |
| TaskStore.TaskStore.SetExitStatus | src/task.rs:276-283 | stores the exit status and marks the task |
| TaskStore.TaskStore.SetVerification | src/task.rs:285-292 | stores the verification and marks the task |
| TaskStore.TaskStore.TakeDirty | src/task.rs:202-209 | returns the marked tasks in order and unmarks them |
| TaskStore.TaskStore.MergeRestored | src/task.rs:211-227 | the merge of the specification, by the two loops of the source |
| TaskStore.TaskStore.EvictCompleted | src/task.rs:455-482 | the eviction of the specification, by a counted retain; selection and session follow |
| TaskStore.TaskStore.Filtered | src/task.rs:339-346 | the ids of the tasks a query matches, in order |
| TaskStore.TaskStore.Select | src/task.rs:305-337 | selects by position, last, or a clamped step from the current one; `select_next` is the case of a query that matches all |
| Utf8.BoundarySplits | src/detail.rs:54-66 | the one-byte boundary test accepts exactly the offsets that cut a text into two texts |
| Detail.BoundaryBeforeIsGreatest | src/detail.rs:53-63 | the greatest boundary not past the limit, at most three bytes short |
| Detail.BoundaryAfterIsLeast | src/detail.rs:65-73 | the least boundary not before the limit, at most three bytes past |
| Detail.BoundedEndsExact | src/detail.rs:6-24 | the result is well formed and within the cap; when it cuts, it is a maximal head, the marker and a maximal tail that do not overlap, with at most six bytes unused |
| Detail.SixBytesCanGoUnused | src/detail.rs:6-24 | that bound is met |
| Detail.BoundedEndsIdempotent | src/detail.rs:6-24 | bounding again, with the same or a larger cap, changes nothing |
| Detail.TextBuffer.PushBoundedEnds | src/detail.rs:26-34 | the buffer after a push, never longer than twice the cap |
| Detail.StreamingIsLinear | src/task.rs:552-559 | over any pushes with any caps, bytes appended and bytes handled by compactions come to at most three for each byte produced, less two for each byte still buffered |
| Detail.CompactsOncePerCap | src/task.rs:552-559 | with one cap, each compaction is preceded by more than a cap of new bytes |
| Detail.StreamKeepsBothEnds | src/detail.rs:26-34 | after any number of compactions the buffer is the stream or starts and ends with the stream's own bytes |
| LineEditor.LineEditor.EditLine | src/app.rs:3507-3576 | every key does to text and cursor what it does to the gap, and is handled or not as the source says |
| LineEditor.LineEditor.InsertText | src/app.rs:3578-3581 | inserted text goes before the cursor |
| LineEditor.LineEditor.EditAll | src/app.rs:3507-3581 | through every run of keys and pastes the text stays well formed and the cursor on a boundary |
| LineEditor.PreviousScalarIsNeighbour | src/app.rs:3583-3588 | the nearest boundary before the cursor, or the start |
| LineEditor.NextScalarIsNeighbour | src/app.rs:3590-3595 | the nearest boundary after the cursor, or the end |
| LineEditor.WordBoundaries | src/app.rs:3597-3616 | the word helpers are the specification's word positions in bytes |
| LineEditor.CtrlWDeletesWhatAltLeftCrosses | src/app.rs:3553-3562 | Ctrl-W removes exactly the span Alt-Left crosses: one word and the white space after it |
| LineEditor.AltRightCrossesOneWord | src/app.rs:3609-3616 | Alt-Right crosses white space and then one whole word |
| LineEditor.WordJumpsProgress | src/app.rs:3597-3616 | word jumps move strictly until an end and change no text |
| LineEditor.HoldingAltLeftReachesTheStart | src/app.rs:3597-3607 | repeated Alt-Left reaches the start |
| LineEditor.BackspacesUndoInsertion | src/app.rs:3538-3545 | as many Backspaces as scalars inserted restore text and cursor |
| LineEditor.TypingThenBackspace | src/app.rs:3509-3545 | typing a scalar then Backspace restores text and cursor |
| LineEditor.StepsCancel | src/app.rs:3514-3552 | left and right cancel; Delete is right then Backspace |
| LineEditor.CtrlUIsBackspaces | src/app.rs:3507-3576 | Ctrl-U is as many Backspaces as there are scalars before the cursor |
| LineEditor.CtrlKIsDeletes | src/app.rs:3507-3576 | Ctrl-K is as many Deletes as there are scalars after it |
| LineEditor.HomeIsLefts | src/app.rs:3507-3576 | Home is as many Lefts |
| LineEditor.EndIsRights | src/app.rs:3507-3576 | End is as many Rights |
| LineEditor.TypingIsPasting | src/app.rs:3509-3513 | typing a character is pasting it |
| LineEditor.CommandsAreExactly | src/app.rs:3553-3576 | with Control or Alt a character does nothing, but for Control with w, u and k |
| LineEditor.OtherKeysIgnoreModifiers | src/app.rs:3514-3552 | the other keys ignore modifiers, but for Alt with Left and Right |
| EventQueue.EveryRunIsSafe | src/runtime.rs:125-170 | in every interleaving the queue is bounded and coalesced, durable events are delivered once each in acceptance order and in each sender's order, and the newest resize and tick are not lost |
| EventQueue.QueuedResizeIsTheLatest | src/runtime.rs:130-143 | a queued resize holds the size accepted last |
| EventQueue.DrainedRunsDeliverEverything | src/runtime.rs:125-170 | once all is sent and received every sender's durable events have arrived in order |
| EventQueue.Attempt | src/runtime.rs:130-152 | a tick is dropped, and another event waits, exactly when the queue is full and holds nothing it replaces |
| EventQueue.AttemptKeepsPlaces | src/runtime.rs:130-152 | an event replaces one of its kind, exactly if there is one, in its place; another accepted event goes to the end |
| EventQueue.EveryRunCanFinish | src/runtime.rs:125-170 | no run gets stuck: everything can still be sent and received |
| EventQueue.EventQueue.TrySend | src/runtime.rs:125-155 | one pass of the send loop is one attempt of the specification |
| EventQueue.EventQueue.TryReceive | src/runtime.rs:157-170 | takes the front event, if any |
| Footer.WidthIsDrawn | src/ui/components/interaction_shell.rs:95-122 | the width that rows are packed by is the number of characters drawn: key, space and caption, with two spaces between hints |
| Footer.FooterRows | src/action.rs:1369-1388 | the loop computes the greedy rows |
| Footer.GreedySplits | src/action.rs:1369-1388 | the rows flatten back to the hints, and each fits or is one hint |
| Footer.GreedyIsOptimal | src/action.rs:1369-1388 | no order-preserving split into such rows has fewer |
| Footer.FooterRowsFit | src/action.rs:1369-1388 | every row fits exactly when every hint fits alone; then no split into fitting rows has fewer |
| Footer.WiderNeedsNoMoreRows | src/action.rs:1369-1388 | the row count never grows with the width |
| Footer.HelpStandsAfterTheLeaders | src/action.rs:1421-1441 | the help hint stands after the leading hints, says whether any hint is hidden, and leaves the others in order |
| Footer.FooterActions | src/action.rs:1420-1450 | the search from the top shows the longest prefix that can be shown, or nothing |
| Footer.MostShownIsMost | src/action.rs:1420-1450 | no longer prefix than the one shown could be shown |
| Footer.CanShowExactly | src/action.rs:1443-1447 | a prefix can be shown exactly when it can be split at all into at most two fitting rows |
| Footer.WideningNeverHides | src/action.rs:1420-1450 | what is visible at a width is a prefix of what is visible at any larger one |
| TransientKeys.ValidateTransientSequences | src/action.rs:1308-1337 | accepts exactly the usable, distinct sets in which nothing shadows; every refusal is justified |
| TransientKeys.ReservedExactly | src/action.rs:1317-1319 | exactly six single keys are reserved |
| TransientKeys.JudgedRightlyExactly | src/action.rs:1308-1337 | for any usable sequences, acceptance is prefix freedom if and only if two are equal, or an ASCII pair stands behind its first key, or a lone two-byte key and a wide pair behind its first key occur both or neither |
| TransientKeys.NoneShadowedExactly | src/action.rs:1327-1335 | what the byte test refuses: lone two-byte keys and ASCII pairs behind their first key |
| TransientKeys.AcceptsExactlyPrefixFree | src/action.rs:1308-1337 | for ASCII, the accepted sets are the usable prefix-free ones |
| TransientKeys.LoneWideKeyIsRefused | src/action.rs:1327-1335 | a lone two-byte key is refused |
| TransientKeys.WidePairIsMissed | src/action.rs:1327-1335 | a two-key sequence with one goes unnoticed |
| TransientKeys.KeysSplitOneWay | src/action.rs:1308-1337 | a stream of keys splits into actions in at most one way |
| TransientKeys.MenuReadsWhatIsSpelt | src/app/interaction_reducer.rs:790-857 | in an accepted ASCII menu, typing the keys of any available actions, none the help key and none arriving with a modifier, dispatches exactly these |
| TransientKeys.ReachableExactly | src/app/interaction_reducer.rs:790-857 | an action of an accepted menu is reached by its keys exactly when it is available, none of them is the help key or arrives with a modifier, and, for a pair, the menu waits after the first key |
| TransientKeys.AsciiReachableExactly | src/app/interaction_reducer.rs:790-857 | in ASCII, exactly when it is available and none of its keys is the help key or arrives with a modifier |
| TransientKeys.ModifiedKeysDoNothing | src/app/interaction_reducer.rs:805-811 | keys that arrive with a modifier might as well not have been pressed, even between the two of a pair |
| TransientKeys.IdleKeysLeave | src/app/interaction_reducer.rs:801-926 | what keys that dispatch nothing leave: help ends the stream, an unavailable action keeps the first key, an unknown sequence drops it unless it starts a pair |
| TransientKeys.CapitalIsIgnored | src/app/interaction_reducer.rs:809-811 | an accepted menu whose capital does nothing where capitals arrive with Shift |
| TransientKeys.HelpKeyHidesAPair | src/app/interaction_reducer.rs:801-804 | an accepted menu whose action the help key keeps out of reach |
| TransientKeys.WidePairIsNotWaitedFor | src/app/interaction_reducer.rs:842-853 | an accepted menu whose pair takes three bytes and is never waited for |
| ViewHistory.ViewHistory.Append | src/app.rs:1158-1169 | refines appending to the zipper |
| ViewHistory.ViewHistory.Backward | src/app.rs:1171-1177 | refines a step back |
| ViewHistory.ViewHistory.Forward | src/app.rs:1179-1185 | refines a step forward |
| ViewHistory.ViewHistory.ReplaceCurrent | src/app.rs:1152-1156 | replaces the current frame only |
| ViewHistory.ViewHistory.MoveAll | src/app.rs:1139-1186 | every run of moves refines the zipper and keeps the cursor in range |
| ViewHistory.BackAndForwardCancel | src/app.rs:1171-1185 | back and forward undo each other and change no frame |
| ViewHistory.ManyStepsCancel | src/app.rs:1171-1185 | so do any number of steps |
| ViewHistory.AppendDiscardsExactly | src/app.rs:1158-1169 | a new frame discards the frames ahead and at most the oldest |
| ViewHistory.RunsKeepNeighboursApart | src/app.rs:1158-1185 | runs keep between one frame and the capacity and never make neighbours equal |
| ViewHistory.ReplacingKeepsNeighboursExactly | src/app.rs:1152-1156 | when replacing the current frame keeps neighbours different |
| Whitespace.TrimRemovesBothEnds | src/app.rs:664-671 | trimming takes the white space off both ends of an entry and nothing else |
| Whitespace.AsciiWhitespace | src/app.rs:3597-3616 | what counts as white space in ASCII |
| ListField.UntouchedListKeepsItsEntries | src/app.rs:664-671 | opening and committing without edits keeps the entries of any value |
| ListField.OpeningAField | src/app.rs:867-880 | an opened field has the cursor at its end and remembers its value; a list field opens its entries at the first, a secret field starts an empty secret |
| ListField.JoinReadsBack | src/app.rs:738-745 | a joined list reads back as the entries of its elements, commas or not |
| ListField.CommittedListReadsBackExactly | src/app.rs:738-745 | a commit reads back as the trimmed non-empty list exactly when no entry holds a comma |
| ListField.CommittingStoresTheList | src/app.rs:889-897 | the same over every run of edits; no other field changes and the selection is in range |
| ListField.CommittingKeepsTheValue | src/app.rs:889-897 | in a text, choice or toggle field an edit sets the value, and keeping it closes the edit; no other field changes |
| ListField.CommittingCloses | src/app.rs:889-897 | keeping the edit of a field that is no list only closes it |
| ListField.AbandoningRestores | src/app.rs:867-907 | abandoning restores every field, whatever was edited, and all else of the form but the secret of a secret field, which stays as typed since the field was opened |
| ListField.AbandoningRestoresExactly | src/app.rs:867-907 | abandoning any edit restores the form exactly for the fields that are not secret |
| ListField.AbandonedSecretIsReplaced | src/app.rs:874-878 | a secret entered before is lost to an edit that is given up |
| ListField.AbandoningNothing | src/app.rs:899-907 | giving up without an open edit only moves the cursor to the start |
| ListField.SecretEditsAtTheEnd | src/domain/secret_result.rs:44-59 | text goes to the end of a secret and Backspace takes its last scalar |
| ListField.MovesPermute | src/app.rs:754-768 | a move swaps two entries, the selection follows, and moving back undoes it |
| ListField.RemovingUndoesInserting | src/app.rs:770-787 | adding and removing an entry leaves the others |
| ListField.MovesByTheOffset | src/app.rs:747-768 | the selection moves by the offset and stops at the ends; a moved entry stops at the start only |
| ListField.InsertingAddsABlank | src/app.rs:770-778 | a new entry is blank, selected and after the selected one; the others stay |
| ListField.RemovingTakesTheSelected | src/app.rs:780-787 | removing takes out the selected entry and selects the next, or the last |
| ListField.EditingChangesTheSelected | src/app.rs:789-797 | an edit changes the selected entry and no other, adding the first if there is none |
| ListField.ListEditor.Select | src/app.rs:747-752 | clamps the moved selection |
| ListField.ListEditor.MoveEntry | src/app.rs:754-768 | swaps with the target if there is one |
| ListField.ListEditor.Insert | src/app.rs:770-778 | adds a blank entry after the selection |
| ListField.ListEditor.Remove | src/app.rs:780-787 | removes the selected entry |
| ListField.ListEditor.Edit | src/app.rs:789-797 | changes the selected entry, adding one first when there is none |
| ListField.FormState.BeginEdit | src/app.rs:867-880 | remembers the value, opens the list of a list field, and starts a new secret for a secret field |
| ListField.FormState.EditList | src/app/interaction_reducer.rs:1282-1303 | an edit of the open list changes that list only |
| ListField.FormState.EditSecret | src/app/interaction_reducer.rs:1348-1368 | text and Backspace in a secret field change the secret only |
| ListField.FormState.CommitEdit | src/app.rs:889-897 | stores the joined list, if one is open |
| ListField.FormState.AbandonEdit | src/app.rs:899-907 | puts the remembered value back |
| Durations.PrintedDurationParses | src/config.rs:1267-1273 | printing and parsing yields the whole milliseconds when they fit in 64 bits and nothing otherwise |
| Durations.RoundTripsExactly | src/config.rs:1078-1092 | the round trip is exact exactly for whole milliseconds that fit in 64 bits |
| Durations.ParsesExactly | src/config.rs:1078-1092 | the texts that parse are those that denote a number of milliseconds that fits, and to that duration |
| Durations.UnitsParse | src/config.rs:1078-1092 | so many milliseconds or seconds, as long as the milliseconds fit in 64 bits |
| Durations.UnitsScale | src/config.rs:1083-1089 | minutes are sixty seconds, hours sixty minutes |
| Durations.PrintsSecondsExactly | src/config.rs:1267-1273 | a duration is printed in seconds exactly when it has no milliseconds beside them |
| Durations.ParsedDurationsRoundTrip | src/config.rs:1267-1273 | whatever parses prints to something that parses the same |

## Left out

- TransientKeys.ValidateTransientSequences: which of several shadowing leaves is reported is left open, because only the order of the map's keys decides it; error texts are values, not strings.
- TransientKeys.MenuReadsWhatIsSpelt: availability does not change while the keys are read, and opening the menu again after each action is implied; which characters arrive with a modifier is a parameter; Esc and choice and copy menus are not modelled.
- TaskHistory.HistoryFollowsMemory: persisting is taken to be switched on and to succeed; the database lags behind by what is on its way to it.
- TaskHistory.HistoryKeepsThePastExactly: records dropped in the run are taken not to come back into memory in it.
- EventQueue.EveryRunCanFinish: wake-ups are not modelled; a waiting sender is one that may try again, so what is proved is that no run gets stuck, not that it must finish.
- Footer.FooterActions: starts from the hints that apply, already ordered by priority; the filtering and the priority table are not modelled.
- PolicySave.NoLostUpdate: the save is delivered at most once, as the client sends it without retries; token requests and file reads are replies of any kind.
- Verification.RunOperationalWrite: the reads behind a check are any results in any time; the individual mutations are not modelled.
- `TaskStore::get_mut` and direct writes to `selected` from outside, which bypass the store's bookkeeping.
- How a task matches a query: any predicate.
- Restored rows are taken as loaded; turning unfinished ones into interrupted ones happens before they are saved and sent (src/database/task_history.rs:213-218).
- The other key handling of forms, choices and toggles; an edit of a text field is any new value.
- The `scroll` of the line editor, which its keys do not touch, and its key modifiers other than Control and Alt.
- HTTP, credentials, temporary files, terminal, clipboard, child processes, rendering, tables of labels and bindings.
- `bounded_prefix_bytes`, `bounded_prefix_chars` and redaction.
