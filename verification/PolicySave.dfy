/**
  Saving the tailnet policy (src/runtime.rs, `apply_policy_remote` and `verify_saved_policy`) as one client
  against a server that other writers use too and a network that loses or delays messages. The server honours
  If-Match (section 13.1.1 of RFC 9110), and an entity tag it has issued labels one document for good
  (section 8.8.3 of RFC 9110).
 */
module PolicySave {
  import opened Wrappers
  import opened Utf8
  import opened AdminErrors

  type Bytes = seq<byte>
  type Etag = nat

  /** What the save was asked to do. `parses` is whether a document can be made of the bytes. */
  datatype Request = Request(hash: Bytes -> nat, parses: Bytes -> bool, expectedBase: nat, expectedCandidate: nat)

  datatype Outcome =
    | Succeeded(savedHash: nat)
    | SucceededUnverified(savedHash: nat)
    | RemoteConflict(latest: Bytes)
    | FailedRetained
    | OutcomeUnknown

  // ----- the client

  /** Where the client is, with what it still needs. */
  datatype Phase =
    | ReadCandidate
    | Authorize(candidate: Bytes)
    | FinalRead(candidate: Bytes)
    | Validate(candidate: Bytes, etag: Etag)
    | Save(candidate: Bytes, etag: Etag)
    | AwaitSave(candidate: Bytes)
    | RefreshAfterConflict
    | Verify(candidate: Bytes, saveConfirmed: bool)
    | Done(outcome: Outcome)

  datatype Body = Body(bytes: Bytes, etag: Option<Etag>)

  /** What the client is told. `Validation(None)` is a validation request that failed. */
  datatype Reply =
    | File(contents: Option<Bytes>)
    | Authorization(granted: bool)
    | Read(read: Result<Body, AdminError>)
    | Validation(valid: Option<bool>)
    | Saved(saved: Result<(), AdminError>)

  /** Whether the client in this phase is waiting for such a reply. */
  predicate Awaits(phase: Phase, reply: Reply) {
    match reply
    case File(_) => phase.ReadCandidate?
    case Authorization(_) => phase.Authorize?
    case Read(_) => phase.FinalRead? || phase.RefreshAfterConflict? || phase.Verify?
    case Validation(_) => phase.Validate?
    case Saved(_) => phase.AwaitSave?
  }

  function AfterFinalRead(request: Request, candidate: Bytes, body: Body): Phase {
    if request.hash(body.bytes) != request.expectedBase then
      Done(if request.parses(body.bytes) then RemoteConflict(body.bytes) else FailedRetained)
    else if body.etag.None? || !request.parses(candidate) then Done(FailedRetained)
    else Validate(candidate, body.etag.value)
  }

  function AfterVerification(request: Request, candidate: Bytes, saveConfirmed: bool,
                             read: Result<Body, AdminError>): Outcome
  {
    match read
    case Err(_) => OutcomeUnknown
    case Ok(body) =>
      if body.bytes == candidate then Succeeded(request.hash(candidate))
      else if saveConfirmed then SucceededUnverified(request.hash(candidate))
      else OutcomeUnknown
  }

  /** What the client does with a reply. */
  function Resume(request: Request, phase: Phase, reply: Reply): Phase
    requires Awaits(phase, reply)
  {
    match phase
    case ReadCandidate =>
      if reply.contents.Some? && request.hash(reply.contents.value) == request.expectedCandidate
      then Authorize(reply.contents.value)
      else Done(FailedRetained)
    case Authorize(candidate) =>
      if reply.granted then FinalRead(candidate) else Done(FailedRetained)
    case FinalRead(candidate) =>
      if reply.read.Ok? then AfterFinalRead(request, candidate, reply.read.value) else Done(FailedRetained)
    case Validate(candidate, etag) =>
      if reply.valid == Some(true) then Save(candidate, etag) else Done(FailedRetained)
    case AwaitSave(candidate) =>
      if reply.saved.Ok? then Verify(candidate, true)
      else if reply.saved.error.Conflict? then RefreshAfterConflict
      else if PolicySaveMayHaveReachedServer(reply.saved.error) then Verify(candidate, false)
      else Done(FailedRetained)
    case RefreshAfterConflict =>
      if reply.read.Ok? && request.parses(reply.read.value.bytes)
      then Done(RemoteConflict(reply.read.value.bytes))
      else Done(FailedRetained)
    case Verify(candidate, saveConfirmed) =>
      Done(AfterVerification(request, candidate, saveConfirmed, reply.read))
  }

  // ----- the server, the network and the other writers

  /** The one conditional save: on its way, effective, or past all effect. */
  datatype Write =
    | NotSent
    | InFlight(bytes: Bytes, ifMatch: Etag)
    | Applied(replaced: Bytes, written: Bytes)
    | Dead

  /** A reply with the phase it arrived in. */
  datatype Exchange = Exchange(phase: Phase, reply: Reply)

  /** `issued` is what each entity tag used so far labels; `log` is all the client has been told. */
  datatype World = World(bytes: Bytes, etag: Etag, issued: map<Etag, Bytes>,
                         write: Write, phase: Phase, log: seq<Exchange>)

  datatype Step =
    | OtherWrite(bytes: Bytes, newEtag: Etag)  // another writer replaces the document
    | SendSave                                  // the client sends its save
    | Deliver(etag: Etag)                       // the server decides the save by its If-Match
    | Lose                                      // the save is lost, or refused for another reason
    | Hear(reply: Reply)                        // the client is told something

  predicate MayLabel(w: World, etag: Etag, bytes: Bytes) {
    etag in w.issued ==> w.issued[etag] == bytes
  }

  /**
    Reads are truthful about the moment they are made. A success reply means the save took effect; an error
    outside the ambiguous classes means it did not and will not; an ambiguous error says nothing.
   */
  predicate Truthful(w: World, reply: Reply) {
    match reply
    case Read(Ok(body)) => body.bytes == w.bytes && (body.etag.Some? ==> body.etag.value == w.etag)
    case Saved(Ok(_)) => w.write.Applied?
    case Saved(Err(e)) => PolicySaveMayHaveReachedServer(e) || w.write.Dead?
    case _ => true
  }

  predicate Enabled(w: World, step: Step) {
    match step
    case OtherWrite(bytes, etag) => MayLabel(w, etag, bytes)
    case SendSave => w.phase.Save?
    case Deliver(etag) => w.write.InFlight? && MayLabel(w, etag, w.write.bytes)
    case Lose => w.write.InFlight?
    case Hear(reply) => Awaits(w.phase, reply) && Truthful(w, reply)
  }

  /** One step; a step that cannot happen changes nothing. */
  function Next(request: Request, w: World, step: Step): World {
    if !Enabled(w, step) then w
    else
      match step
      case OtherWrite(bytes, etag) =>
        w.(bytes := bytes, etag := etag, issued := w.issued[etag := bytes])
      case SendSave =>
        w.(write := InFlight(w.phase.candidate, w.phase.etag), phase := AwaitSave(w.phase.candidate))
      case Deliver(etag) =>
        if w.write.ifMatch != w.etag then w.(write := Dead)
        else w.(bytes := w.write.bytes, etag := etag, issued := w.issued[etag := w.write.bytes],
                write := Applied(w.bytes, w.write.bytes))
      case Lose => w.(write := Dead)
      case Hear(reply) =>
        w.(phase := Resume(request, w.phase, reply), log := w.log + [Exchange(w.phase, reply)])
  }

  function Run(request: Request, start: World, steps: seq<Step>): World {
    if steps == [] then start
    else Next(request, Run(request, start, steps[..|steps| - 1]), steps[|steps| - 1])
  }

  predicate Initial(w: World) {
    && w.etag in w.issued && w.issued[w.etag] == w.bytes
    && w.write == NotSent && w.phase == ReadCandidate && w.log == []
  }

  lemma RunExtends(request: Request, start: World, steps: seq<Step>, step: Step)
    ensures Run(request, start, steps + [step]) == Next(request, Run(request, start, steps), step)
  {
    assert (steps + [step])[..|steps|] == steps;
  }

  // ----- what every run keeps

  /** The server's validation accepted these bytes during the run. */
  ghost predicate Validated(log: seq<Exchange>, bytes: Bytes) {
    exists i :: 0 <= i < |log| && log[i].phase.Validate? && log[i].phase.candidate == bytes
             && log[i].reply == Validation(Some(true))
  }

  /** A tag that labels the base, and bytes that are the candidate. */
  ghost predicate Guards(request: Request, w: World, bytes: Bytes, etag: Etag) {
    && request.hash(bytes) == request.expectedCandidate
    && etag in w.issued && request.hash(w.issued[etag]) == request.expectedBase
  }

  /** What may be said about the save in each phase. */
  ghost predicate WriteFits(request: Request, w: World) {
    match w.phase
    case AwaitSave(candidate) =>
      && !w.write.NotSent?
      && request.hash(candidate) == request.expectedCandidate
      && (w.write.InFlight? ==> w.write.bytes == candidate)
      && (w.write.Applied? ==> w.write.written == candidate)
    case RefreshAfterConflict => w.write.Dead?
    case Verify(candidate, saveConfirmed) =>
      && !w.write.NotSent?
      && request.hash(candidate) == request.expectedCandidate
      && (saveConfirmed ==> w.write.Applied?)
      && (w.write.InFlight? ==> w.write.bytes == candidate)
      && (w.write.Applied? ==> w.write.written == candidate)
    case Done(_) => true
    case _ => w.write.NotSent?
  }

  /** The verification read was answered with a document. */
  ghost predicate VerificationRead(last: Exchange) {
    last.phase.Verify? && last.reply.Read? && last.reply.read.Ok?
  }

  /** A reply that ends the save before it is sent, or once it is known to have been refused. */
  ghost predicate Refused(request: Request, last: Exchange) {
    match last.reply
    case File(contents) =>
      last.phase.ReadCandidate? && (contents.Some? ==> request.hash(contents.value) != request.expectedCandidate)
    case Authorization(granted) => last.phase.Authorize? && !granted
    case Validation(valid) => last.phase.Validate? && valid != Some(true)
    case Saved(saved) =>
      last.phase.AwaitSave? && saved.Err? && !saved.error.Conflict? && !PolicySaveMayHaveReachedServer(saved.error)
    case Read(Err(_)) => last.phase.FinalRead? || last.phase.RefreshAfterConflict?
    case Read(Ok(body)) =>
      || (last.phase.RefreshAfterConflict? && !request.parses(body.bytes))
      || (last.phase.FinalRead?
          && if request.hash(body.bytes) != request.expectedBase then !request.parses(body.bytes)
             else body.etag.None? || !request.parses(last.phase.candidate))
  }

  /** What each outcome says, of the save and of the last reply; no two cases overlap. */
  ghost predicate OutcomeFits(request: Request, w: World)
    requires w.phase.Done?
  {
    && w.log != []
    && var last := w.log[|w.log| - 1];
       match w.phase.outcome
       case Succeeded(hash) =>
         && VerificationRead(last)
         && hash == request.hash(last.phase.candidate) == request.expectedCandidate
         && last.reply.read.value.bytes == last.phase.candidate
         && !w.write.NotSent?
         && (w.write.InFlight? ==> w.write.bytes == last.phase.candidate)
         && (w.write.Applied? ==> w.write.written == last.phase.candidate)
       case SucceededUnverified(hash) =>
         && VerificationRead(last) && last.phase.saveConfirmed
         && last.reply.read.value.bytes != last.phase.candidate
         && hash == request.expectedCandidate
         && w.write.Applied? && w.write.written == last.phase.candidate
       case RemoteConflict(latest) =>
         && (w.write.NotSent? || w.write.Dead?)
         && (last.phase.FinalRead? || last.phase.RefreshAfterConflict?)
         && last.reply.Read? && last.reply.read.Ok? && last.reply.read.value.bytes == latest && request.parses(latest)
         && (last.phase.FinalRead? ==> request.hash(latest) != request.expectedBase)
       case FailedRetained =>
         && (w.write.NotSent? || w.write.Dead?)
         && Refused(request, last)
       case OutcomeUnknown =>
         && !w.write.NotSent?
         && last.phase.Verify? && last.reply.Read?
         && (last.phase.saveConfirmed ==> last.reply.read.Err? && w.write.Applied?)
         && (last.reply.read.Ok? ==> last.reply.read.value.bytes != last.phase.candidate)
  }

  ghost predicate Invariant(request: Request, w: World) {
    && w.etag in w.issued && w.issued[w.etag] == w.bytes
    && (w.phase.Authorize? || w.phase.FinalRead? ==> request.hash(w.phase.candidate) == request.expectedCandidate)
    && (w.phase.Validate? || w.phase.Save? ==> Guards(request, w, w.phase.candidate, w.phase.etag))
    && (w.phase.Save? ==> Validated(w.log, w.phase.candidate))
    && (w.write.InFlight? ==> Guards(request, w, w.write.bytes, w.write.ifMatch) && Validated(w.log, w.write.bytes))
    && (w.write.Applied? ==>
          && request.hash(w.write.replaced) == request.expectedBase
          && request.hash(w.write.written) == request.expectedCandidate
          && Validated(w.log, w.write.written))
    && WriteFits(request, w)
    && (w.phase.Done? ==> OutcomeFits(request, w))
  }

  lemma LogGrows(log: seq<Exchange>, exchange: Exchange, bytes: Bytes)
    requires Validated(log, bytes)
    ensures Validated(log + [exchange], bytes)
  {
    var i :| 0 <= i < |log| && log[i].phase.Validate? && log[i].phase.candidate == bytes
          && log[i].reply == Validation(Some(true));
    assert (log + [exchange])[i] == log[i];
  }

  lemma HearingKeepsInvariant(request: Request, w: World, reply: Reply)
    requires Invariant(request, w)
    ensures Invariant(request, Next(request, w, Hear(reply)))
  {
    if Enabled(w, Hear(reply)) {
      var exchange := Exchange(w.phase, reply);
      var w' := Next(request, w, Hear(reply));
      assert w'.log[|w'.log| - 1] == exchange;
      if w.write.InFlight? { LogGrows(w.log, exchange, w.write.bytes); }
      if w.write.Applied? { LogGrows(w.log, exchange, w.write.written); }
    }
  }

  lemma StepKeepsInvariant(request: Request, w: World, step: Step)
    requires Invariant(request, w)
    ensures Invariant(request, Next(request, w, step))
  {
    if step.Hear? {
      HearingKeepsInvariant(request, w, step.reply);
    }
  }

  lemma {:induction false} RunKeepsInvariant(request: Request, start: World, steps: seq<Step>)
    requires Initial(start)
    ensures Invariant(request, Run(request, start, steps))
    decreases |steps|
  {
    if steps != [] {
      RunKeepsInvariant(request, start, steps[..|steps| - 1]);
      StepKeepsInvariant(request, Run(request, start, steps[..|steps| - 1]), steps[|steps| - 1]);
    }
  }

  // ----- the guarantees

  /**
    No lost update: whatever other writers and the network do, and however late the save arrives, if it takes
    effect it replaces a document that hashes to the expected base by the validated candidate.
   */
  lemma NoLostUpdate(request: Request, start: World, steps: seq<Step>)
    requires Initial(start)
    ensures var w := Run(request, start, steps);
            w.write.Applied? ==>
              && request.hash(w.write.replaced) == request.expectedBase
              && request.hash(w.write.written) == request.expectedCandidate
              && Validated(w.log, w.write.written)
  {
    RunKeepsInvariant(request, start, steps);
  }

  /** With a hash that tells documents apart, those are the very documents the user edited from and to. */
  lemma NothingElseIsReplaced(request: Request, start: World, steps: seq<Step>, base: Bytes, candidate: Bytes)
    requires Initial(start)
    requires forall x, y :: request.hash(x) == request.hash(y) ==> x == y
    requires request.hash(base) == request.expectedBase && request.hash(candidate) == request.expectedCandidate
    ensures var w := Run(request, start, steps);
            w.write.Applied? ==> w.write == Applied(base, candidate)
  {
    RunKeepsInvariant(request, start, steps);
  }

  /** What each outcome means, in every run and at every moment after it was reported. */
  lemma OutcomesAreSound(request: Request, start: World, steps: seq<Step>)
    requires Initial(start)
    ensures var w := Run(request, start, steps); w.phase.Done? ==> OutcomeFits(request, w)
  {
    RunKeepsInvariant(request, start, steps);
  }

  /** The last reply decides between the outcomes, and what it leaves open is unknown, in exactly these cases. */
  lemma OutcomesByLastReply(request: Request, start: World, steps: seq<Step>)
    requires Initial(start) && Run(request, start, steps).phase.Done?
    ensures var w := Run(request, start, steps);
            && w.log != []
            && var last, outcome := w.log[|w.log| - 1], w.phase.outcome;
               && (outcome.FailedRetained? <==> Refused(request, last))
               && (outcome.Succeeded? <==>
                     VerificationRead(last) && last.reply.read.value.bytes == last.phase.candidate)
               && (outcome.SucceededUnverified? <==>
                     && VerificationRead(last) && last.reply.read.value.bytes != last.phase.candidate
                     && last.phase.saveConfirmed)
               && (outcome.OutcomeUnknown? <==>
                     || (last.phase.Verify? && last.reply.Read? && last.reply.read.Err?)
                     || (VerificationRead(last) && last.reply.read.value.bytes != last.phase.candidate
                         && !last.phase.saveConfirmed))
  {
    OutcomesAreSound(request, start, steps);
  }

  lemma {:induction false} DoneIsFinal(request: Request, w: World, more: seq<Step>)
    requires w.phase.Done?
    ensures Run(request, w, more).phase == w.phase && Run(request, w, more).log == w.log
    decreases |more|
  {
    if more != [] {
      DoneIsFinal(request, w, more[..|more| - 1]);
    }
  }

  lemma {:induction false} RunsCompose(request: Request, start: World, steps: seq<Step>, more: seq<Step>)
    ensures Run(request, start, steps + more) == Run(request, Run(request, start, steps), more)
    decreases |more|
  {
    if more == [] {
      assert steps + more == steps;
    } else {
      RunsCompose(request, start, steps, more[..|more| - 1]);
      assert (steps + more)[..|steps + more| - 1] == steps + more[..|more| - 1];
    }
  }

  /** A save reported as refused or conflicting never takes effect, whatever happens afterwards. */
  lemma RefusedSaveNeverTakesEffect(request: Request, start: World, steps: seq<Step>, more: seq<Step>)
    requires Initial(start)
    requires var w := Run(request, start, steps);
             w.phase.Done? && (w.phase.outcome.FailedRetained? || w.phase.outcome.RemoteConflict?)
    ensures !Run(request, start, steps + more).write.Applied?
  {
    RunsCompose(request, start, steps, more);
    DoneIsFinal(request, Run(request, start, steps), more);
    OutcomesAreSound(request, start, steps + more);
  }

  // ----- what the client was told, from the file to the outcome

  /** The first `n` answers, of at most four, were all that is asked of them before the save may be sent. */
  predicate Cleared(request: Request, log: seq<Exchange>, n: nat) {
    && n <= |log|
    && (n >= 1 ==>
          && log[0].reply.File? && log[0].reply.contents.Some?
          && request.hash(log[0].reply.contents.value) == request.expectedCandidate)
    && (n >= 2 ==> log[1].reply == Authorization(true))
    && (n >= 3 ==>
          && log[2].reply.Read? && log[2].reply.read.Ok? && log[2].reply.read.value.etag.Some?
          && request.hash(log[2].reply.read.value.bytes) == request.expectedBase
          && request.parses(log[0].reply.contents.value))
    && (n >= 4 ==> log[3].reply == Validation(Some(true)))
  }

  /** The bytes of the candidate file, and the tag of the base read. */
  predicate IsSavedAs(log: seq<Exchange>, bytes: Bytes) {
    |log| >= 1 && log[0].reply == File(Some(bytes))
  }

  predicate IsGuardedBy(log: seq<Exchange>, etag: Etag) {
    |log| >= 3 && log[2].reply.Read? && log[2].reply.read.Ok? && log[2].reply.read.value.etag == Some(etag)
  }

  /** A base that is another document is a conflict when it parses. */
  function BaseReport(request: Request, read: Result<Body, AdminError>): Outcome {
    if read.Ok? && request.hash(read.value.bytes) != request.expectedBase && request.parses(read.value.bytes)
    then RemoteConflict(read.value.bytes)
    else FailedRetained
  }

  /** The outcome by the answer to the save and the read after it. */
  ghost predicate SaveReportFits(request: Request, candidate: Bytes, saved: Result<(), AdminError>,
                                 read: Result<Body, AdminError>, outcome: Outcome)
  {
    var isCandidate := read.Ok? && read.value.bytes == candidate;
    if saved.Err? && saved.error.Conflict? then
      if read.Ok? && request.parses(read.value.bytes) then outcome == RemoteConflict(read.value.bytes)
      else outcome == FailedRetained
    else
      && (saved.Err? ==> PolicySaveMayHaveReachedServer(saved.error))
      && (outcome == Succeeded(request.expectedCandidate) <==> isCandidate)
      && (outcome == SucceededUnverified(request.expectedCandidate) <==> read.Ok? && !isCandidate && saved.Ok?)
      && (outcome == OutcomeUnknown <==> read.Err? || (!isCandidate && saved.Err?))
  }

  /** An outcome and how many answers it took: which ones, and what they were. */
  ghost predicate ReportFits(request: Request, log: seq<Exchange>, outcome: Outcome) {
    match |log|
    case 1 =>
      outcome == FailedRetained && log[0].reply.File? && !Cleared(request, log, 1)
    case 2 =>
      outcome == FailedRetained && Cleared(request, log, 1) && log[1].reply == Authorization(false)
    case 3 =>
      && Cleared(request, log, 2) && log[2].reply.Read? && !Cleared(request, log, 3)
      && outcome == BaseReport(request, log[2].reply.read)
    case 4 =>
      outcome == FailedRetained && Cleared(request, log, 3) && log[3].reply.Validation? && !Cleared(request, log, 4)
    case 5 =>
      && outcome == FailedRetained && Cleared(request, log, 4) && log[4].reply.Saved?
      && log[4].reply.saved.Err? && !log[4].reply.saved.error.Conflict?
      && !PolicySaveMayHaveReachedServer(log[4].reply.saved.error)
    case 6 =>
      && Cleared(request, log, 4) && log[4].reply.Saved? && log[5].reply.Read?
      && SaveReportFits(request, log[0].reply.contents.value, log[4].reply.saved, log[5].reply.read, outcome)
    case _ => false
  }

  /** Which answers the client has had, and of what kind, in each phase. */
  ghost predicate LogFits(request: Request, w: World) {
    match w.phase
    case ReadCandidate => w.log == []
    case Authorize(c) => |w.log| == 1 && Cleared(request, w.log, 1) && IsSavedAs(w.log, c)
    case FinalRead(c) => |w.log| == 2 && Cleared(request, w.log, 2) && IsSavedAs(w.log, c)
    case Validate(c, etag) =>
      |w.log| == 3 && Cleared(request, w.log, 3) && IsSavedAs(w.log, c) && IsGuardedBy(w.log, etag)
    case Save(c, etag) =>
      |w.log| == 4 && Cleared(request, w.log, 4) && IsSavedAs(w.log, c) && IsGuardedBy(w.log, etag)
    case AwaitSave(c) => |w.log| == 4 && Cleared(request, w.log, 4) && IsSavedAs(w.log, c)
    case RefreshAfterConflict =>
      && |w.log| == 5 && Cleared(request, w.log, 4) && w.log[4].reply.Saved?
      && w.log[4].reply.saved.Err? && w.log[4].reply.saved.error.Conflict?
    case Verify(c, saveConfirmed) =>
      && |w.log| == 5 && Cleared(request, w.log, 4) && IsSavedAs(w.log, c) && w.log[4].reply.Saved?
      && (if saveConfirmed then w.log[4].reply.saved.Ok?
          else w.log[4].reply.saved.Err? && !w.log[4].reply.saved.error.Conflict?
               && PolicySaveMayHaveReachedServer(w.log[4].reply.saved.error))
    case Done(outcome) => ReportFits(request, w.log, outcome)
  }

  /** What the save is, once sent, is what was cleared. */
  ghost predicate WriteIsCleared(request: Request, w: World) {
    && (!w.write.NotSent? ==> Cleared(request, w.log, 4))
    && (w.write.InFlight? ==> IsSavedAs(w.log, w.write.bytes) && IsGuardedBy(w.log, w.write.ifMatch))
    && (w.write.Applied? ==> IsSavedAs(w.log, w.write.written))
  }

  lemma HearingKeepsLog(request: Request, w: World, reply: Reply)
    requires LogFits(request, w) && WriteIsCleared(request, w)
    ensures LogFits(request, Next(request, w, Hear(reply))) && WriteIsCleared(request, Next(request, w, Hear(reply)))
  {
    if Enabled(w, Hear(reply)) {
      var log := w.log + [Exchange(w.phase, reply)];
      assert forall i :: 0 <= i < |w.log| ==> log[i] == w.log[i];
      assert log[|w.log|].reply == reply;
    }
  }

  lemma StepKeepsLog(request: Request, w: World, step: Step)
    requires LogFits(request, w) && WriteIsCleared(request, w)
    ensures LogFits(request, Next(request, w, step)) && WriteIsCleared(request, Next(request, w, step))
  {
    if step.Hear? {
      HearingKeepsLog(request, w, step.reply);
    }
  }

  lemma StartKeepsLog(request: Request, start: World)
    requires Initial(start)
    ensures LogFits(request, start) && WriteIsCleared(request, start)
  {
  }

  lemma {:induction false} RunKeepsLog(request: Request, start: World, steps: seq<Step>)
    requires Initial(start)
    ensures LogFits(request, Run(request, start, steps)) && WriteIsCleared(request, Run(request, start, steps))
    decreases |steps|
  {
    hide LogFits, WriteIsCleared, Next;
    if steps == [] {
      StartKeepsLog(request, start);
    } else {
      RunKeepsLog(request, start, steps[..|steps| - 1]);
      StepKeepsLog(request, Run(request, start, steps[..|steps| - 1]), steps[|steps| - 1]);
    }
  }

  /**
    A save is only ever sent after the candidate file, a granted authorization, a read of the base and a positive
    validation, in this order; what is sent is that file, and what guards it is the tag of that read.
   */
  lemma SentOnlyWhenCleared(request: Request, start: World, steps: seq<Step>)
    requires Initial(start)
    ensures var w := Run(request, start, steps);
            !w.write.NotSent? ==>
              && Cleared(request, w.log, 4) && Exchange(w.log[1].phase, Authorization(true)) in w.log
              && (w.write.InFlight? ==> IsSavedAs(w.log, w.write.bytes) && IsGuardedBy(w.log, w.write.ifMatch))
              && (w.write.Applied? ==> IsSavedAs(w.log, w.write.written))
  {
    RunKeepsLog(request, start, steps);
  }

  /** Every outcome by the answers alone. */
  lemma OutcomesByTheLog(request: Request, start: World, steps: seq<Step>)
    requires Initial(start)
    ensures var w := Run(request, start, steps);
            w.phase.Done? ==> ReportFits(request, w.log, w.phase.outcome)
  {
    RunKeepsLog(request, start, steps);
  }

  ghost predicate WasAnswered(log: seq<Exchange>, saved: Result<(), AdminError>) {
    exists i :: 0 <= i < |log| && log[i].reply == Saved(saved)
  }

  lemma Answered(log: seq<Exchange>, i: nat, saved: Result<(), AdminError>)
    requires i < |log| && log[i].reply == Saved(saved)
    ensures WasAnswered(log, saved)
  {
  }

  /** An unknown outcome follows a success or an ambiguous error. */
  lemma UnknownIsAnswered(request: Request, log: seq<Exchange>)
    requires ReportFits(request, log, OutcomeUnknown)
    ensures exists saved :: WasAnswered(log, saved) && (saved.Ok? || PolicySaveMayHaveReachedServer(saved.error))
  {
    Answered(log, 4, log[4].reply.saved);
  }

  lemma NotEmpty(log: seq<Exchange>, saved: Result<(), AdminError>)
    requires WasAnswered(log, saved)
    ensures log != []
  {
  }

  lemma DefiniteErrorDecides(request: Request, log: seq<Exchange>, outcome: Outcome, error: AdminError)
    requires ReportFits(request, log, outcome)
    requires WasAnswered(log, Err(error)) && !PolicySaveMayHaveReachedServer(error)
    ensures var last := log[|log| - 1].reply;
            outcome ==
              if error.Conflict? && last.Read? && last.read.Ok? && request.parses(last.read.value.bytes)
              then RemoteConflict(last.read.value.bytes)
              else FailedRetained
  {
    var i :| 0 <= i < |log| && log[i].reply == Saved(Err(error));
    assert i == 4;
  }

  /**
    The answer to the save decides. An outcome is unknown only after a success or an ambiguous error. After a
    conflict the outcome is a remote conflict with the bytes last read, if these parse, and else a failure; after
    any other definite error it is a failure.
   */
  lemma TheAnswerDecides(request: Request, start: World, steps: seq<Step>, error: AdminError)
    requires Initial(start) && Run(request, start, steps).phase.Done?
    ensures var w := Run(request, start, steps);
            w.phase.outcome.OutcomeUnknown? ==>
              exists saved :: WasAnswered(w.log, saved) && (saved.Ok? || PolicySaveMayHaveReachedServer(saved.error))
    ensures var w := Run(request, start, steps);
            WasAnswered(w.log, Err(error)) && !PolicySaveMayHaveReachedServer(error) ==>
              && w.log != []
              && var last := w.log[|w.log| - 1].reply;
                 w.phase.outcome ==
                   if error.Conflict? && last.Read? && last.read.Ok? && request.parses(last.read.value.bytes)
                   then RemoteConflict(last.read.value.bytes)
                   else FailedRetained
  {
    hide ReportFits, WasAnswered, Run;
    OutcomesByTheLog(request, start, steps);
    var w := Run(request, start, steps);
    if w.phase.outcome.OutcomeUnknown? {
      UnknownIsAnswered(request, w.log);
    }
    if WasAnswered(w.log, Err(error)) && !PolicySaveMayHaveReachedServer(error) {
      NotEmpty(w.log, Err(error));
      DefiniteErrorDecides(request, w.log, w.phase.outcome, error);
    }
  }

  // ----- runs without other writers and losses

  /** The document is the one that was edited, and the candidate is the edited one. */
  ghost predicate Ready(request: Request, start: World, candidate: Bytes) {
    && request.hash(start.bytes) == request.expectedBase
    && request.hash(candidate) == request.expectedCandidate
    && request.parses(candidate)
  }

  /** No other writer, no loss, and whatever the client is told is what it hopes for. */
  predicate IsQuiet(candidate: Bytes, step: Step) {
    match step
    case OtherWrite(_, _) => false
    case Lose => false
    case SendSave => true
    case Deliver(_) => true
    case Hear(File(contents)) => contents == Some(candidate)
    case Hear(Authorization(granted)) => granted
    case Hear(Read(read)) => read.Ok? && read.value.etag.Some?
    case Hear(Validation(valid)) => valid == Some(true)
    case Hear(Saved(saved)) => saved.Ok?
  }

  predicate Quiet(candidate: Bytes, steps: seq<Step>) {
    forall i :: 0 <= i < |steps| ==> IsQuiet(candidate, steps[i])
  }

  /** Where a quiet run is. */
  predicate OnCourse(request: Request, start: World, candidate: Bytes, w: World) {
    && (if w.write.Applied? then w.write == Applied(start.bytes, candidate) && w.bytes == candidate
        else w.bytes == start.bytes && w.etag == start.etag && w.issued == start.issued)
    && match w.phase
       case ReadCandidate => w.write.NotSent?
       case Authorize(c) => c == candidate && w.write.NotSent?
       case FinalRead(c) => c == candidate && w.write.NotSent?
       case Validate(c, etag) => c == candidate && etag == start.etag && w.write.NotSent?
       case Save(c, etag) => c == candidate && etag == start.etag && w.write.NotSent?
       case AwaitSave(c) => c == candidate && (w.write == InFlight(candidate, start.etag) || w.write.Applied?)
       case RefreshAfterConflict => false
       case Verify(c, saveConfirmed) => c == candidate && saveConfirmed && w.write.Applied?
       case Done(outcome) => outcome == Succeeded(request.expectedCandidate) && w.write.Applied?
  }

  lemma QuietStepStaysOnCourse(request: Request, start: World, candidate: Bytes, w: World, step: Step)
    requires Ready(request, start, candidate) && OnCourse(request, start, candidate, w) && IsQuiet(candidate, step)
    ensures OnCourse(request, start, candidate, Next(request, w, step))
  {
  }

  lemma StartIsOnCourse(request: Request, start: World, candidate: Bytes)
    requires Initial(start)
    ensures OnCourse(request, start, candidate, start)
  {
  }

  lemma {:induction false} QuietRunStaysOnCourse(request: Request, start: World, candidate: Bytes, steps: seq<Step>)
    requires Initial(start) && Ready(request, start, candidate) && Quiet(candidate, steps)
    ensures OnCourse(request, start, candidate, Run(request, start, steps))
    decreases |steps|
  {
    hide OnCourse, IsQuiet;
    if steps == [] {
      StartIsOnCourse(request, start, candidate);
    } else {
      var before := steps[..|steps| - 1];
      QuietRunStaysOnCourse(request, start, candidate, before);
      QuietStepStaysOnCourse(request, start, candidate, Run(request, start, before), steps[|steps| - 1]);
    }
  }

  /** In every run without other writers and losses, a save that is done has succeeded and taken effect. */
  lemma QuietSaveSucceeds(request: Request, start: World, candidate: Bytes, steps: seq<Step>)
    requires Initial(start) && Ready(request, start, candidate) && Quiet(candidate, steps)
    ensures var w := Run(request, start, steps);
            w.phase.Done? ==>
              && w.phase.outcome == Succeeded(request.expectedCandidate)
              && w.write == Applied(start.bytes, candidate) && w.bytes == candidate
  {
    QuietRunStaysOnCourse(request, start, candidate, steps);
  }

  /** How many quiet steps are left. */
  function StepsLeft(w: World): nat {
    match w.phase
    case ReadCandidate => 8
    case Authorize(_) => 7
    case FinalRead(_) => 6
    case Validate(_, _) => 5
    case Save(_, _) => 4
    case AwaitSave(_) => if w.write.InFlight? then 3 else 2
    case Verify(_, _) => 1
    case _ => 0
  }

  /** The step that a quiet run takes next; the server gives the saved document a new tag. */
  function NextQuietStep(w: World, candidate: Bytes, newEtag: Etag): Step {
    match w.phase
    case ReadCandidate => Hear(File(Some(candidate)))
    case Authorize(_) => Hear(Authorization(true))
    case Validate(_, _) => Hear(Validation(Some(true)))
    case Save(_, _) => SendSave
    case AwaitSave(_) => if w.write.InFlight? then Deliver(newEtag) else Hear(Saved(Ok(())))
    case _ => Hear(Read(Ok(Body(w.bytes, Some(w.etag)))))
  }

  lemma NextQuietStepAdvances(request: Request, start: World, candidate: Bytes, w: World, newEtag: Etag)
    requires Ready(request, start, candidate) && OnCourse(request, start, candidate, w) && !w.phase.Done?
    requires newEtag !in start.issued
    ensures var step := NextQuietStep(w, candidate, newEtag);
            IsQuiet(candidate, step) && StepsLeft(Next(request, w, step)) < StepsLeft(w)
  {
  }

  /** And no such run is stuck: from wherever it is it can be completed. */
  lemma {:induction false} QuietRunCanFinish(request: Request, start: World, candidate: Bytes, steps: seq<Step>,
                                             newEtag: Etag)
    requires Initial(start) && Ready(request, start, candidate) && Quiet(candidate, steps)
    requires newEtag !in start.issued
    ensures exists more :: Quiet(candidate, more) && Run(request, start, steps + more).phase.Done?
    decreases StepsLeft(Run(request, start, steps))
  {
    hide OnCourse, IsQuiet, NextQuietStep, StepsLeft;
    var w := Run(request, start, steps);
    if w.phase.Done? {
      assert steps + [] == steps && Quiet(candidate, []);
    } else {
      var step := NextQuietStep(w, candidate, newEtag);
      QuietRunStaysOnCourse(request, start, candidate, steps);
      NextQuietStepAdvances(request, start, candidate, w, newEtag);
      RunExtends(request, start, steps, step);
      QuietRunCanFinish(request, start, candidate, steps + [step], newEtag);
      var more :| Quiet(candidate, more) && Run(request, start, (steps + [step]) + more).phase.Done?;
      assert (steps + [step]) + more == steps + ([step] + more) && Quiet(candidate, [step] + more);
    }
  }

  // ----- what the outcomes do not say

  /** A candidate save that the client has sent and is waiting for. */
  function SentSteps(base: Bytes, etag: Etag, candidate: Bytes): seq<Step> {
    [Hear(File(Some(candidate))), Hear(Authorization(true)), Hear(Read(Ok(Body(base, Some(etag))))),
     Hear(Validation(Some(true))), SendSave]
  }

  function SentWorld(start: World, candidate: Bytes): World {
    start.(phase := AwaitSave(candidate), write := InFlight(candidate, start.etag),
           log := [Exchange(ReadCandidate, File(Some(candidate))),
                   Exchange(Authorize(candidate), Authorization(true)),
                   Exchange(FinalRead(candidate), Read(Ok(Body(start.bytes, Some(start.etag))))),
                   Exchange(Validate(candidate, start.etag), Validation(Some(true)))])
  }

  /** From a start that meets the save's expectations the save gets sent. */
  lemma SaveGetsSent(request: Request, start: World, candidate: Bytes)
    requires Initial(start) && Ready(request, start, candidate)
    ensures Run(request, start, SentSteps(start.bytes, start.etag, candidate)) == SentWorld(start, candidate)
  {
    var s := SentSteps(start.bytes, start.etag, candidate);
    assert s == [] + [s[0]] + [s[1]] + [s[2]] + [s[3]] + [s[4]];
    RunExtends(request, start, [], s[0]);
    RunExtends(request, start, [s[0]], s[1]);
    RunExtends(request, start, [s[0]] + [s[1]], s[2]);
    RunExtends(request, start, [s[0]] + [s[1]] + [s[2]], s[3]);
    RunExtends(request, start, [s[0]] + [s[1]] + [s[2]] + [s[3]], s[4]);
    assert Run(request, start, s).log == SentWorld(start, candidate).log;
  }

  /**
    An unknown outcome really is unknown: for every save that gets as far as being sent, there are two runs in
    which the client is told exactly the same, in one of which the save took effect and in the other not.
   */
  lemma UnknownIsUnknowable(request: Request, start: World, candidate: Bytes, other: Bytes)
    requires Initial(start) && Ready(request, start, candidate) && other != candidate
    requires start.etag + 1 !in start.issued && start.etag + 2 !in start.issued
    ensures exists effective, lost ::
              var w, v := Run(request, start, effective), Run(request, start, lost);
              && w.phase == v.phase == Done(OutcomeUnknown) && w.log == v.log
              && w.write == Applied(start.bytes, candidate) && v.write == Dead
  {
    hide Run;
    var sent := SentSteps(start.bytes, start.etag, candidate);
    SaveGetsSent(request, start, candidate);
    var overwrite := OtherWrite(other, start.etag + 2);
    var timeout, read := Hear(Saved(Err(TimedOut))), Hear(Read(Ok(Body(other, None))));
    var effective, lost := sent + [Deliver(start.etag + 1)], sent + [Lose];
    RunExtends(request, start, sent, Deliver(start.etag + 1));
    RunExtends(request, start, sent, Lose);
    forall s | s in {effective, lost}
      ensures Run(request, start, s + [overwrite] + [timeout] + [read])
           == Next(request, Next(request, Next(request, Run(request, start, s), overwrite), timeout), read)
    {
      RunExtends(request, start, s, overwrite);
      RunExtends(request, start, s + [overwrite], timeout);
      RunExtends(request, start, s + [overwrite] + [timeout], read);
    }
    var w := Run(request, start, effective + [overwrite] + [timeout] + [read]);
    var v := Run(request, start, lost + [overwrite] + [timeout] + [read]);
    assert w.log == v.log;
  }

  /** Success means the server held the candidate; another writer may have put it there. */
  lemma SuccessMayBeAnothersWrite(request: Request, start: World, candidate: Bytes)
    requires Initial(start) && Ready(request, start, candidate)
    requires start.etag + 1 !in start.issued
    ensures exists steps ::
              var w := Run(request, start, steps);
              w.phase == Done(Succeeded(request.expectedCandidate)) && w.write == Dead
  {
    hide Run;
    var sent := SentSteps(start.bytes, start.etag, candidate);
    SaveGetsSent(request, start, candidate);
    var s1 := sent + [OtherWrite(candidate, start.etag + 1)];
    var s2 := s1 + [Lose];
    var s3 := s2 + [Hear(Saved(Err(TimedOut)))];
    var s4 := s3 + [Hear(Read(Ok(Body(candidate, None))))];
    RunExtends(request, start, sent, OtherWrite(candidate, start.etag + 1));
    RunExtends(request, start, s1, Lose);
    RunExtends(request, start, s2, Hear(Saved(Err(TimedOut))));
    RunExtends(request, start, s3, Hear(Read(Ok(Body(candidate, None)))));
  }

  /** A save the client was told about can still end as unknown: the verification read failing is enough. */
  lemma ConfirmedSaveMayBeReportedUnknown(request: Request, start: World, candidate: Bytes, error: AdminError)
    requires Initial(start) && Ready(request, start, candidate)
    requires start.etag + 1 !in start.issued
    ensures exists steps ::
              var w := Run(request, start, steps);
              && w.phase == Done(OutcomeUnknown) && w.write == Applied(start.bytes, candidate)
              && Exchange(AwaitSave(candidate), Saved(Ok(()))) in w.log
  {
    var sent := SentSteps(start.bytes, start.etag, candidate);
    SaveGetsSent(request, start, candidate);
    var s1 := sent + [Deliver(start.etag + 1)];
    var s2 := s1 + [Hear(Saved(Ok(())))];
    var s3 := s2 + [Hear(Read(Err(error)))];
    RunExtends(request, start, sent, Deliver(start.etag + 1));
    RunExtends(request, start, s1, Hear(Saved(Ok(()))));
    RunExtends(request, start, s2, Hear(Read(Err(error))));
    var w := Run(request, start, s3);
    assert w.log[4] == Exchange(AwaitSave(candidate), Saved(Ok(())));
  }
}
