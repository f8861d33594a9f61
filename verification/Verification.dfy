/**
  Verification after a write (src/runtime.rs): a read is repeated until it confirms the change, fails for
  good, or has been answered at or past the deadline; then the write's own answer and the verification are
  reconciled into one result. Time is in nanoseconds.
 */
module Verification {
  import opened Wrappers
  import opened AdminErrors

  const ADMIN_VERIFICATION_DEADLINE: nat := 30_000_000_000
  const ADMIN_VERIFICATION_POLL: nat := 250_000_000
  const MAX_CHECKS: nat := 121

  datatype Check<T> = Verified(value: T) | Mismatch(detail: string) | Failed(error: AdminError)

  /**
    One course of events. For check number `i`: what it reports, how long until the clock is read after it,
    how long until the clock is read again, how far past its due time the sleep ends, and whether the task is
    cancelled during that sleep. Any functions will do: the clock never runs backwards and a sleep never ends early.
   */
  datatype Script<T> = Script(
    check: nat -> Check<T>,
    took: nat -> nat,
    lag: nat -> nat,
    overslept: nat -> nat,
    cancelled: nat -> bool)
  {
    /** When the sleep after a check ends, `reread` being the clock reading before it. */
    function Woken(start: nat, i: nat, reread: nat): nat {
      var deadline := start + ADMIN_VERIFICATION_DEADLINE;
      if reread >= deadline then reread
      else if deadline - reread < ADMIN_VERIFICATION_POLL then deadline + overslept(i)
      else reread + ADMIN_VERIFICATION_POLL + overslept(i)
    }

    function Started(start: nat, i: nat): nat {
      if i == 0 then start else Woken(start, i - 1, Started(start, i - 1) + took(i - 1) + lag(i - 1))
    }

    /** The clock reading that decides whether to give up. */
    function Finished(start: nat, i: nat): nat {
      Started(start, i) + took(i)
    }

    /** The clock reading that decides how long to sleep. */
    function Reread(start: nat, i: nat): nat {
      Finished(start, i) + lag(i)
    }

    predicate MayImprove(i: nat) {
      check(i).Mismatch? || (check(i).Failed? && RetryableVerification(check(i).error))
    }

    /** Check `i` settles nothing and was over before the deadline. */
    predicate Continues(start: nat, i: nat) {
      MayImprove(i) && Finished(start, i) < start + ADMIN_VERIFICATION_DEADLINE
    }
  }

  /** A sleep is a poll interval long, or as long as is left; past the deadline there is none. */
  lemma SleepsExactly<T>(script: Script<T>, start: nat, i: nat, reread: nat)
    ensures var deadline := start + ADMIN_VERIFICATION_DEADLINE;
            var woken := script.Woken(start, i, reread);
            && (woken == reread || reread < deadline)
            && (reread < deadline ==>
                  && woken - script.overslept(i) in {reread + ADMIN_VERIFICATION_POLL, deadline}
                  && woken - script.overslept(i) <= deadline
                  && woken - script.overslept(i) <= reread + ADMIN_VERIFICATION_POLL)
  {
  }

  /** Each sleep brings the deadline a whole poll interval closer, or reaches it. */
  lemma {:induction false} ChecksAreSpaced<T>(script: Script<T>, start: nat, i: nat)
    ensures script.Started(start, i) >= start + ADMIN_VERIFICATION_DEADLINE
         || script.Started(start, i) >= start + i * ADMIN_VERIFICATION_POLL
  {
    if i > 0 {
      ChecksAreSpaced(script, start, i - 1);
    }
  }

  /** No course of events gets past the 121st check. */
  lemma LastCheckSettles<T>(script: Script<T>, start: nat, i: nat)
    requires i >= MAX_CHECKS - 1
    ensures !script.Continues(start, i)
  {
    ChecksAreSpaced(script, start, i);
  }

  /** Checks that take no time and never match, with punctual sleeps. */
  function PunctualScript(detail: string): Script<int> {
    Script(_ => Mismatch(detail), _ => 0, _ => 0, _ => 0, _ => false)
  }

  lemma {:induction false} PunctualChecks(detail: string, start: nat, i: nat)
    requires i < MAX_CHECKS
    ensures PunctualScript(detail).Started(start, i) == start + i * ADMIN_VERIFICATION_POLL
  {
    if i > 0 {
      PunctualChecks(detail, start, i - 1);
    }
  }

  lemma FirstCheckStarts<T>(script: Script<T>, start: nat)
    ensures script.Started(start, 0) == start
  {
  }

  lemma NextCheckStarts<T>(script: Script<T>, start: nat, i: nat)
    ensures script.Started(start, i + 1) == script.Woken(start, i, script.Finished(start, i) + script.lag(i))
  {
  }

  // ----- the operational poll

  /** Every check before the last settled nothing in time; the last one settles it. */
  ghost predicate PollEnds<T>(script: Script<T>, start: nat, checks: nat) {
    && 1 <= checks <= MAX_CHECKS
    && (forall i :: 0 <= i < checks - 1 ==> script.Continues(start, i))
    && !script.Continues(start, checks - 1)
  }

  /** The last check ended at or past the deadline. */
  predicate EndedLate<T>(script: Script<T>, start: nat, checks: nat)
    requires checks > 0
  {
    script.Finished(start, checks - 1) >= start + ADMIN_VERIFICATION_DEADLINE
  }

  /** The bound is met: with those checks the poll goes on to the 121st. */
  lemma AllChecksMayBeNeeded(detail: string, start: nat)
    ensures PollEnds(PunctualScript(detail), start, MAX_CHECKS)
  {
    forall i | 0 <= i < MAX_CHECKS - 1
      ensures PunctualScript(detail).Continues(start, i)
    {
      PunctualChecks(detail, start, i);
    }
    PunctualChecks(detail, start, MAX_CHECKS - 1);
  }

  /** `poll_operational_check`. */
  method PollOperationalCheck<T>(script: Script<T>, start: nat) returns (result: Result<T, AdminError>, checks: nat)
    ensures PollEnds(script, start, checks)
    ensures var last, late := script.check(checks - 1), EndedLate(script, start, checks);
            && (result.Ok? <==> last.Verified?)
            && (result.Ok? ==> last == Verified(result.value))
            && (last.Mismatch? ==> late && result == Err(Conflict(last.detail)))
            && (last.Failed? ==> (late || !RetryableVerification(last.error)) && result == Err(last.error))
  {
    hide Script.Started;
    var deadline := start + ADMIN_VERIFICATION_DEADLINE;
    var now := start;
    checks := 0;
    FirstCheckStarts(script, start);
    while true
      invariant checks < MAX_CHECKS && now == script.Started(start, checks)
      invariant forall i :: 0 <= i < checks ==> script.Continues(start, i)
      decreases MAX_CHECKS - checks
    {
      var check := script.check(checks);
      now := now + script.took(checks);
      checks := checks + 1;
      if check.Verified? {
        return Ok(check.value), checks;
      } else if check.Mismatch? {
        if now >= deadline {
          return Err(Conflict(check.detail)), checks;
        }
      } else if RetryableVerification(check.error) {
        if now >= deadline {
          return Err(check.error), checks;
        }
      } else {
        return Err(check.error), checks;
      }
      now := now + script.lag(checks - 1);
      if now < deadline {
        var remaining := deadline - now;
        var wait := if remaining < ADMIN_VERIFICATION_POLL then remaining else ADMIN_VERIFICATION_POLL;
        now := now + wait + script.overslept(checks - 1);
      }
      NextCheckStarts(script, start, checks - 1);
      if checks == MAX_CHECKS {
        LastCheckSettles(script, start, checks - 1);
      }
    }
  }

  // ----- the admin-change poll

  datatype VerificationResult = Confirmed(detail: string) | Unconfirmed(detail: string)

  /** `verify_admin_change_until`: the same loop, which a cancellation ends while it sleeps. */
  method VerifyAdminChangeUntil(script: Script<string>, start: nat)
    returns (result: Result<VerificationResult, AdminError>, checks: nat, stopped: bool)
    ensures 1 <= checks <= MAX_CHECKS
    ensures forall i :: 0 <= i < checks - 1 ==> script.Continues(start, i)
    ensures forall i :: 0 <= i < checks - 1 && script.cancelled(i) ==>
              script.Reread(start, i) >= start + ADMIN_VERIFICATION_DEADLINE
    ensures stopped == script.Continues(start, checks - 1)
    ensures stopped ==> script.cancelled(checks - 1) && result == Err(Cancelled)
    ensures stopped ==> script.Reread(start, checks - 1) < start + ADMIN_VERIFICATION_DEADLINE
    ensures !stopped ==> PollEnds(script, start, checks)
    ensures var last, late := script.check(checks - 1), EndedLate(script, start, checks);
            && ((result.Ok? && result.value.Confirmed?) <==> !stopped && last.Verified?)
            && ((result.Ok? && result.value.Unconfirmed?) <==> !stopped && last.Mismatch?)
            && (result.Err? <==> stopped || last.Failed?)
            && (!stopped && last.Verified? ==> result.value.detail == last.value)
            && (!stopped && last.Mismatch? ==> late && result.value.detail == last.detail)
            && (!stopped && last.Failed? ==>
                  (late || !RetryableVerification(last.error)) && result.error == last.error)
  {
    hide Script.Started;
    var deadline := start + ADMIN_VERIFICATION_DEADLINE;
    var now := start;
    checks := 0;
    FirstCheckStarts(script, start);
    while true
      invariant checks < MAX_CHECKS && now == script.Started(start, checks)
      invariant forall i :: 0 <= i < checks ==> script.Continues(start, i)
      invariant forall i :: 0 <= i < checks && script.cancelled(i) ==> script.Reread(start, i) >= deadline
      decreases MAX_CHECKS - checks
    {
      var check := script.check(checks);
      now := now + script.took(checks);
      checks := checks + 1;
      if check.Verified? {
        return Ok(Confirmed(check.value)), checks, false;
      } else if check.Mismatch? {
        if now >= deadline {
          return Ok(Unconfirmed(check.detail)), checks, false;
        }
      } else if RetryableVerification(check.error) {
        if now >= deadline {
          return Err(check.error), checks, false;
        }
      } else {
        return Err(check.error), checks, false;
      }
      now := now + script.lag(checks - 1);
      if now < deadline {
        if script.cancelled(checks - 1) {
          return Err(Cancelled), checks, true;
        }
        var remaining := deadline - now;
        var wait := if remaining < ADMIN_VERIFICATION_POLL then remaining else ADMIN_VERIFICATION_POLL;
        now := now + wait + script.overslept(checks - 1);
      }
      NextCheckStarts(script, start, checks - 1);
      if checks == MAX_CHECKS {
        LastCheckSettles(script, start, checks - 1);
      }
    }
  }

  // ----- reconciling the write with its verification

  datatype OperationalResult<T> = Completed(value: T) | SucceededUnverified(cause: AdminError) | OutcomeUnknown

  /** `reconcile_operational_write`. */
  function Reconcile<T>(writeError: Option<AdminError>, verification: Result<T, AdminError>, secretLost: bool)
    : Result<OperationalResult<T>, AdminError>
  {
    match (writeError, verification)
    case (None, Ok(verified)) => Ok(Completed(verified))
    case (None, Err(error)) => Ok(SucceededUnverified(error))
    case (Some(error), Ok(verified)) =>
      if secretLost then Ok(OutcomeUnknown)
      else if OperationalWriteMayHaveReachedServer(error) then Ok(Completed(verified))
      else Err(error)
    case (Some(error), Err(_)) =>
      if OperationalWriteMayHaveReachedServer(error) then Ok(OutcomeUnknown) else Err(error)
  }

  /** Reconciliation alone reports a refused write as refused, exactly unless a lost secret meets a verified read. */
  lemma ReconcilingARefusal<T>(error: AdminError, verification: Result<T, AdminError>, secretLost: bool)
    requires !OperationalWriteMayHaveReachedServer(error)
    ensures Reconcile(Some(error), verification, secretLost) == Err(error) <==> !(secretLost && verification.Ok?)
  {
  }

  predicate Ambiguous(writeError: Option<AdminError>) {
    writeError.Some? && OperationalWriteMayHaveReachedServer(writeError.value)
  }

  predicate Refused(writeError: Option<AdminError>) {
    writeError.Some? && !OperationalWriteMayHaveReachedServer(writeError.value)
  }

  /**
    A write and its verification, as the operational mutations run them: a refused write is not verified at
    all, which closes the one gap in reconciliation. The result is then exactly what is known.
   */
  method RunOperationalWrite<T>(writeError: Option<AdminError>, script: Script<T>, start: nat, secretLost: bool)
    returns (result: Result<OperationalResult<T>, AdminError>, checks: nat)
    requires secretLost ==> writeError.Some?
    ensures checks <= MAX_CHECKS && (checks == 0 <==> Refused(writeError))
    ensures checks > 0 ==> PollEnds(script, start, checks)
    ensures result.Err? <==> Refused(writeError)
    ensures result.Err? ==> Some(result.error) == writeError
    ensures (result.Ok? && result.value.Completed?) <==>
              && checks > 0 && script.check(checks - 1).Verified?
              && (writeError == None || (Ambiguous(writeError) && !secretLost))
    ensures result.Ok? && result.value.Completed? ==> script.check(checks - 1) == Verified(result.value.value)
    ensures (result.Ok? && result.value.SucceededUnverified?) <==>
              checks > 0 && !script.check(checks - 1).Verified? && writeError == None
    ensures result.Ok? && result.value.SucceededUnverified? ==>
              var last := script.check(checks - 1);
              result.value.cause == if last.Mismatch? then Conflict(last.detail) else last.error
    ensures (result.Ok? && result.value.OutcomeUnknown?) <==>
              checks > 0 && Ambiguous(writeError) && (secretLost || !script.check(checks - 1).Verified?)
  {
    if writeError.Some? && !OperationalWriteMayHaveReachedServer(writeError.value) {
      return Err(writeError.value), 0;
    }
    var verification;
    verification, checks := PollOperationalCheck(script, start);
    result := Reconcile(writeError, verification, secretLost);
  }
}
