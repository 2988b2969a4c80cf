// The error values of the SDK (src/semantik/error.rs), with message texts reduced to what they say.

module Errors {
  import opened Basics

  // A `Duration`, in nanoseconds.
  type Duration = nat

  const NANOS_PER_MILLI: nat := 1_000_000
  const NANOS_PER_SEC: nat := 1_000_000_000
  const MAX_RETRY_AFTER: Duration := 3600 * NANOS_PER_SEC

  datatype ErrorCode =
    | InvalidRequest
    | Unauthorized
    | NotBillable
    | MethodNotAllowed
    | UnsupportedMediaType
    | RequestTooLarge
    | RateLimited
    | TooManyRequests
    | Backpressure
    | Unavailable
    | NamespaceUnavailable
    | NamespaceDisabled
    | ModelNotProvisioned
    | MeteringUnavailable
    | InternalError
    | MalformedResponse
    | Unknown(name: Text)

  // What an `Error::MalformedSse` message reports.
  datatype SseFault =
    | TooLarge
    | BadMatch(payload: Text)
    | WrongEvent(event: Text)
    | BadSubscribed
    | MissingId
    | ClosedEarly
    | WrongContentType(contentType: Text)

  datatype Error =
    | Api(code: ErrorCode, message: Text, requestId: Option<Text>, retryAfter: Option<Duration>, httpStatus: nat)
    | MalformedSse(fault: SseFault)
    | SubscribeSetup(source: Error)
    | SubscribeStream(source: Error)
    | Transport(detail: Text)
}
