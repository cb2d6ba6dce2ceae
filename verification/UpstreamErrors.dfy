/**
 Why an upstream call failed, and what each layer of the gateway makes of it
 (upstream_error.go, response.go).
 */
module UpstreamErrors {
  import opened Options
  import opened BreakerCalls

  datatype Kind =
    | Timeout | Canceled | Connection | Redirect | ClientError | BadStatus
    | ReadError | BodyTooLarge | CircuitOpen | Internal | PolicyViolation

  /** The codes a client may see. */
  datatype Code =
    | RateLimitExceeded | PayloadTooLarge | UpstreamBodyTooLarge | UpstreamUnavailable
    | UpstreamError | UpstreamClientError | UpstreamRedirect | UpstreamMalformed
    | InternalError | Aborted | ValueConflict | Unauthorized

  datatype Retry = Never | Always | ByStatus

  datatype Props = Props(breaker: Signal, retry: Retry, hasBody: bool, propagatable: bool, code: Code)

  function PropsOf(k: Kind): Props {
    match k
    case Timeout         => Props(Failure, Always, false, false, UpstreamUnavailable)
    case Connection      => Props(Failure, Always, false, false, UpstreamUnavailable)
    case Canceled        => Props(NoSignal, Never, false, false, Aborted)
    case CircuitOpen     => Props(NoSignal, Never, false, false, UpstreamUnavailable)
    case Internal        => Props(NoSignal, Never, false, false, InternalError)
    case ReadError       => Props(Failure, Never, false, false, InternalError)
    case BodyTooLarge    => Props(Success, Never, false, false, UpstreamBodyTooLarge)
    case BadStatus       => Props(Failure, ByStatus, true, false, UpstreamError)
    case ClientError     => Props(Success, ByStatus, true, true, UpstreamClientError)
    case Redirect        => Props(Success, Never, true, true, UpstreamRedirect)
    case PolicyViolation => Props(Success, Never, false, false, UpstreamMalformed)
  }

  function SignalOf(err: Option<Kind>): Signal {
    match err
    case None => Success
    case Some(k) => PropsOf(k).breaker
  }

  function CodeOf(err: Option<Kind>): Code {
    match err
    case None => InternalError
    case Some(k) => PropsOf(k).code
  }
}
