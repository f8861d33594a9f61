/** The error classes of the admin API client (src/admin/client.rs) and how the runtime sorts them (src/runtime.rs). */
module AdminErrors {
  datatype AdminError =
    | Unauthenticated
    | Forbidden
    | PlanRestricted
    | NotFound
    | ValidationFailed
    | Conflict(detail: string)
    | RateLimited
    | ServerFailure
    | Transport
    | TimedOut
    | Cancelled
    | UnexpectedStatus
    | DecodeFailed
    | BodyTooLarge
    | Unsupported

  /** After these a policy save may still take effect, or may have. */
  predicate PolicySaveMayHaveReachedServer(e: AdminError) {
    || e.TimedOut? || e.Transport? || e.RateLimited? || e.ServerFailure?
    || e.UnexpectedStatus? || e.DecodeFailed? || e.BodyTooLarge?
  }

  /** The same for an operational write, where a rate limit does count as a refusal. */
  predicate OperationalWriteMayHaveReachedServer(e: AdminError) {
    || e.Transport? || e.TimedOut? || e.ServerFailure?
    || e.UnexpectedStatus? || e.DecodeFailed? || e.BodyTooLarge?
  }

  /** Verification reads go on after these. */
  predicate RetryableVerification(e: AdminError) {
    e.Transport? || e.TimedOut? || e.RateLimited? || e.ServerFailure?
  }

  /** The errors that settle it: the request was refused, or was never sent. */
  predicate IsDefinite(e: AdminError) {
    e in {Unauthenticated, Forbidden, PlanRestricted, NotFound, ValidationFailed, Cancelled, Unsupported} || e.Conflict?
  }

  /** An error is definite or ambiguous, and only a rate limit is one for a policy save and the other otherwise. */
  lemma ErrorsAreSorted(e: AdminError)
    ensures PolicySaveMayHaveReachedServer(e) <==> !IsDefinite(e)
    ensures OperationalWriteMayHaveReachedServer(e) <==> !IsDefinite(e) && !e.RateLimited?
    ensures RetryableVerification(e) ==> !IsDefinite(e)
  {
  }
}
