// The retry policy and the retry loop (src/semantik/retry.rs, src/semantik/transport.rs, and subscribe of
// src/semantik/subscribe.rs).

module Retry {
  import opened Basics
  import opened SseScanner
  import opened Errors
  import opened RetryHints
  import opened Subscriptions
  import opened Delivery
  import opened Attempts
  import SseFrames

  // ----- The policy -----

  const BACKOFF_SCHEDULE: seq<Duration> :=
    [100 * NANOS_PER_MILLI, 2 * NANOS_PER_SEC, 5 * NANOS_PER_SEC, 10 * NANOS_PER_SEC]

  function FallbackBackoff(attempt: u32): Duration {
    BACKOFF_SCHEDULE[if attempt as nat < |BACKOFF_SCHEDULE| - 1 then attempt as nat else |BACKOFF_SCHEDULE| - 1]
  }

  /** The errors the API documents as safe to re-issue. */
  predicate Transient(e: Error) {
    && e.Api?
    && (|| e.code.Backpressure?
        || e.code.Unavailable?
        || e.code.NamespaceUnavailable?
        || e.code.MeteringUnavailable?)
  }

  /** `TransientRetry::should_retry`. */
  function ShouldRetry(maxAttempts: u32, attempt: u32, e: Error): Option<Duration> {
    if attempt >= maxAttempts then None
    else if !e.Api? then None
    else match e.code
      case Backpressure | Unavailable | NamespaceUnavailable | MeteringUnavailable =>
        Some(if e.retryAfter.Some? then e.retryAfter.value else FallbackBackoff(attempt))
      case _ => None
  }

  // ----- The loop -----

  // The pause after failed attempt `i`.
  function Pause(i: u32, e: Error): Duration
    requires e.Api?
  {
    var d := if e.retryAfter.Some? then e.retryAfter.value else FallbackBackoff(i);
    if d < MAX_RETRY_AFTER then d else MAX_RETRY_AFTER
  }

  /** What a call with at most `maxAttempts` retries does: it makes attempts 0, 1, 2, ...; each but the
      last fails with a transient error and is followed by a pause; the last one's outcome is returned,
      and it is a success, a lasting error, or the end of the attempts. */
  ghost predicate RetryRun<T>(maxAttempts: u32, f: u32 -> Result<T, Error>,
                              r: Result<T, Error>, calls: seq<u32>, pauses: seq<Duration>)
  {
    && 1 <= |calls| <= maxAttempts as nat + 1
    && |pauses| == |calls| - 1
    && (forall i | 0 <= i < |calls| :: calls[i] as nat == i)
    && (forall i | 0 <= i < |pauses| ::
          && f(calls[i]).Err? && Transient(f(calls[i]).error)
          && pauses[i] == Pause(calls[i], f(calls[i]).error))
    && r == f(calls[|calls| - 1])
    && (r.Ok? || !Transient(r.error) || |calls| == maxAttempts as nat + 1)
  }

  /** `run_with_retry` under `TransientRetry`; `f(i)` is the outcome of attempt `i`. The counter is a
      u32 and never overflows. */
  method RunWithRetry<T>(maxAttempts: u32, f: u32 -> Result<T, Error>)
    returns (r: Result<T, Error>, calls: seq<u32>, pauses: seq<Duration>)
    ensures RetryRun(maxAttempts, f, r, calls, pauses)
  {
    var attempt: u32 := 0;
    calls, pauses := [], [];
    while true
      invariant attempt <= maxAttempts
      invariant |calls| == |pauses| == attempt as nat
      invariant forall i | 0 <= i < |calls| :: calls[i] as nat == i
      invariant forall i | 0 <= i < |pauses| ::
                  && f(calls[i]).Err? && Transient(f(calls[i]).error)
                  && pauses[i] == Pause(calls[i], f(calls[i]).error)
      decreases maxAttempts - attempt
    {
      r := f(attempt);
      calls := calls + [attempt];
      if r.Ok? {
        return;
      }
      var delay := ShouldRetry(maxAttempts, attempt, r.error);
      if delay.None? {
        return;
      }
      pauses := pauses + [if delay.value < MAX_RETRY_AFTER then delay.value else MAX_RETRY_AFTER];
      attempt := attempt + 1;
    }
  }

  /** The specification leaves no choice: outcome, attempts and pauses follow from the outcomes. */
  lemma {:induction false} RetryRunIsUnique<T>(maxAttempts: u32, f: u32 -> Result<T, Error>,
                            r1: Result<T, Error>, c1: seq<u32>, p1: seq<Duration>,
                            r2: Result<T, Error>, c2: seq<u32>, p2: seq<Duration>)
    requires RetryRun(maxAttempts, f, r1, c1, p1) && RetryRun(maxAttempts, f, r2, c2, p2)
    ensures r1 == r2 && c1 == c2 && p1 == p2
  {
    hide Pause, Transient;
    var k := (if |c1| <= |c2| then |c1| else |c2|) - 1;
    assert c1[k] == c2[k];
    assert |c1| == |c2|;
  }

  // ----- Subscribing -----

  /** A handshake error as the caller sees it. */
  function WrapSetup<T>(r: Result<T, Error>): Result<T, Error> {
    if r.Ok? then r else Err(SubscribeSetup(r.error))
  }

  /** What `subscribe` does after its preflight checks: a retry run over handshake attempts, whose final
      error is wrapped. */
  ghost predicate SubscribeRun(maxAttempts: u32, codec: Codec, dec: ErrorDecoder, replies: u32 -> Reply,
                               r: Result<(Text, Option<Text>, StreamState), Error>,
                               calls: seq<u32>, pauses: seq<Duration>)
  {
    && calls != []
    && var last := SubscribeOutcome(codec, dec, replies(calls[|calls| - 1]));
    && RetryRun(maxAttempts, i => SubscribeOutcome(codec, dec, replies(i)), last, calls, pauses)
    && r == WrapSetup(last)
  }

  /** `subscribe` with its live result: each attempt may open a Subscription, the run is a SubscribeRun, and
      the object returned is the one the last attempt opened. */
  method Subscribe(maxAttempts: u32, codec: Codec, dec: ErrorDecoder, replies: u32 -> Reply)
    returns (r: Result<Subscription, Error>, calls: seq<u32>, pauses: seq<Duration>)
    ensures calls != []
    ensures var o := WrapSetup(SubscribeOutcome(codec, dec, replies(calls[|calls| - 1])));
            && SubscribeRun(maxAttempts, codec, dec, replies, o, calls, pauses)
            && (r.Ok? <==> o.Ok?)
            && (r.Err? ==> r.error == o.error)
            && (r.Ok? ==> r.value.Valid() && r.value.codec == codec
                          && (r.value.id, r.value.requestId, r.value.Snapshot()) == o.value)
    ensures r.Ok? ==> fresh(r.value) && fresh(r.value.scanner)
  {
    hide SubscribeOutcome;
    ghost var f := i => SubscribeOutcome(codec, dec, replies(i));
    var attempt: u32 := 0;
    calls, pauses := [], [];
    while true
      invariant attempt <= maxAttempts
      invariant |calls| == |pauses| == attempt as nat
      invariant forall i | 0 <= i < |calls| :: calls[i] as nat == i
      invariant forall i | 0 <= i < |pauses| ::
                  && f(calls[i]).Err? && Transient(f(calls[i]).error)
                  && pauses[i] == Pause(calls[i], f(calls[i]).error)
      decreases maxAttempts - attempt
    {
      r := SubscribeOnce(codec, dec, replies(attempt));
      calls := calls + [attempt];
      if r.Ok? {
        return;
      }
      var delay := ShouldRetry(maxAttempts, attempt, r.error);
      if delay.None? {
        r := Err(SubscribeSetup(r.error));
        return;
      }
      pauses := pauses + [if delay.value < MAX_RETRY_AFTER then delay.value else MAX_RETRY_AFTER];
      attempt := attempt + 1;
    }
  }

  // ----- Never sent again after a success status -----

  lemma {:induction false} JsonRetriesErrorReplies<V>(dec: ErrorDecoder, decode: Bytes -> Option<V>, reply: Reply)
    requires var o := SendOnceJson(dec, decode, reply); o.Err? && Transient(o.error)
    ensures ErrorReply(reply) && FairHint(SendOnceJson(dec, decode, reply).error.retryAfter)
  {
    if reply.Reply? {
      ReadIffUnbroken(reply.script);
      var body := ReadBytes(reply.script);
      if body.Ok? {
        DecodedHints(dec, reply.status, reply.headers, body.value, reply.at);
      }
      hide ReadBytes, DecodeErrorResponse;
    }
  }

  lemma {:induction false} HandshakeErrorsAreLasting(codec: Codec, script: seq<BodyEvent>)
    requires Handshake(codec, script).Err?
    ensures !Handshake(codec, script).error.Api?
  {
    FirstErrorsAreLasting(codec, FRESH, [], Body(script, 0));
    hide ReadFirst;
  }

  lemma {:induction false} FirstErrorsAreLasting(codec: Codec, scan: State, pending: seq<SseFrames.Frame>, body: Body)
    ensures var f := ReadFirst(codec, scan, pending, body).first; f.Err? ==> !f.error.Api?
    decreases |body.script|
  {
    hide FeedStep, CloseStep;
    if pending == [] && body.script != [] {
      match body.script[0]
      case Pending => FirstErrorsAreLasting(codec, scan, [], body.Polled());
      case Broken(_) =>
      case Chunk(bytes) =>
        var (scan', frames) := FeedStep(codec.lossy, scan, bytes);
        if frames.Ok? {
          FirstErrorsAreLasting(codec, scan', frames.value, body.Polled());
        }
    }
  }

  lemma {:induction false} SubscribeRetriesErrorReplies(codec: Codec, dec: ErrorDecoder, reply: Reply)
    requires var o := SubscribeOutcome(codec, dec, reply); o.Err? && Transient(o.error)
    ensures ErrorReply(reply) && FairHint(SubscribeOutcome(codec, dec, reply).error.retryAfter)
  {
    if reply.Reply? {
      if IsSuccess(reply.status) {
        hide IsEventStream, Handshake;
        if Handshake(codec, reply.script).Err? {
          HandshakeErrorsAreLasting(codec, reply.script);
        }
      } else {
        ReadIffUnbroken(reply.script);
        var body := ReadBytes(reply.script);
        if body.Ok? {
          DecodedHints(dec, reply.status, reply.headers, body.value, reply.at);
        }
        hide ReadBytes, DecodeErrorResponse;
      }
    }
  }

  /** A JSON call, for any replies and any retry limit: an attempt that got a success status is the
      last one, whatever its body held, and every pause is the one the policy asked for, never cut. */
  lemma {:induction false} JsonNeverResent<V>(
    maxAttempts: u32, dec: ErrorDecoder, decode: Bytes -> Option<V>, replies: u32 -> Reply,
    r: Result<(V, Option<Text>), Error>, calls: seq<u32>, pauses: seq<Duration>)
    requires RetryRun(maxAttempts, i => SendOnceJson(dec, decode, replies(i)), r, calls, pauses)
    ensures forall i | 0 <= i < |calls| - 1 :: ErrorReply(replies(calls[i]))
    ensures forall i | 0 <= i < |pauses| ::
              Some(pauses[i]) == ShouldRetry(maxAttempts, calls[i], SendOnceJson(dec, decode, replies(calls[i])).error)
  {
    hide SendOnceJson, ErrorReply;
    forall i | 0 <= i < |pauses|
      ensures ErrorReply(replies(calls[i]))
      ensures Some(pauses[i]) == ShouldRetry(maxAttempts, calls[i], SendOnceJson(dec, decode, replies(calls[i])).error)
    {
      JsonRetriesErrorReplies(dec, decode, replies(calls[i]));
    }
  }

  /** The same for subscribe: once a handshake got a success status no other one is sent. The caller sees
      the last attempt's outcome, an error wrapped as a setup error. */
  lemma {:induction false} SubscribeNeverResent(
    maxAttempts: u32, codec: Codec, dec: ErrorDecoder, replies: u32 -> Reply,
    r: Result<(Text, Option<Text>, StreamState), Error>, calls: seq<u32>, pauses: seq<Duration>)
    requires SubscribeRun(maxAttempts, codec, dec, replies, r, calls, pauses)
    ensures forall i | 0 <= i < |calls| - 1 :: ErrorReply(replies(calls[i]))
    ensures forall i | 0 <= i < |pauses| ::
              var o := SubscribeOutcome(codec, dec, replies(calls[i]));
              Some(pauses[i]) == ShouldRetry(maxAttempts, calls[i], o.error)
    ensures var last := SubscribeOutcome(codec, dec, replies(calls[|calls| - 1]));
            if last.Ok? then r == last else r == Err(SubscribeSetup(last.error))
  {
    hide SubscribeOutcome, ErrorReply;
    forall i | 0 <= i < |pauses|
      ensures ErrorReply(replies(calls[i]))
      ensures var o := SubscribeOutcome(codec, dec, replies(calls[i]));
              Some(pauses[i]) == ShouldRetry(maxAttempts, calls[i], o.error)
    {
      SubscribeRetriesErrorReplies(codec, dec, replies(calls[i]));
    }
  }

  /** Any run goes on to a second attempt exactly when retries are allowed and the first failed with a
      transient error. */
  lemma {:induction false} RetriedIff<T>(maxAttempts: u32, f: u32 -> Result<T, Error>,
                                         r: Result<T, Error>, calls: seq<u32>, pauses: seq<Duration>)
    requires RetryRun(maxAttempts, f, r, calls, pauses)
    ensures |calls| > 1 <==> maxAttempts > 0 && f(0).Err? && Transient(f(0).error)
  {
    assert calls[0] == 0;
    hide Transient, Pause;
  }

  /** The four codes that are safe to re-issue. */
  predicate TransientCode(code: ErrorCode) {
    code in [Backpressure, Unavailable, NamespaceUnavailable, MeteringUnavailable]
  }

  /** A decoded error is transient exactly when the server names one of the four codes, or names none on a
      503. */
  lemma {:induction false} DecodedTransientIff(
    dec: ErrorDecoder, status: nat, headers: Headers, body: Bytes, at: int)
    ensures Transient(DecodeErrorResponse(dec, status, headers, body, at)) <==>
            match NamedCode(dec, body)
            case Some(code) => TransientCode(code)
            case None => status == 503
  {
    hide DecodeErrorResponse;
    var e := DecodeErrorResponse(dec, status, headers, body, at);
    if NamedCode(dec, body).Some? {
      DecodedEnvelope(dec, status, headers, body, at);
    } else {
      CodeFromStatus(dec, status, headers, body, at, Unavailable);
      CodeFromStatus(dec, status, headers, body, at, e.code);
    }
  }

  /** The code the server names in the part of the body that is decoded. */
  function NamedCode(dec: ErrorDecoder, body: Bytes): Option<ErrorCode> {
    if body == [] then None
    else
      match dec.envelope(if |body| <= 65536 then body else body[..65536])
      case Some(env) => env.code
      case None => None
  }

  /** Subscribe is documented as never retried. Its handshake is, exactly when retries are allowed and the
      first reply has an error status, arrives whole, and names one of the four transient codes or, with
      status 503, none. */
  lemma {:induction false} HandshakeRetriedIff(
    maxAttempts: u32, codec: Codec, dec: ErrorDecoder, replies: u32 -> Reply,
    r: Result<(Text, Option<Text>, StreamState), Error>, calls: seq<u32>, pauses: seq<Duration>)
    requires SubscribeRun(maxAttempts, codec, dec, replies, r, calls, pauses)
    ensures |calls| > 1 <==>
              && maxAttempts > 0
              && ErrorReply(replies(0))
              && Unbroken(replies(0).script)
              && match NamedCode(dec, Concat(Chunks(replies(0).script)))
                 case Some(code) => TransientCode(code)
                 case None => replies(0).status == 503
  {
    var f := i => SubscribeOutcome(codec, dec, replies(i));
    var last := SubscribeOutcome(codec, dec, replies(calls[|calls| - 1]));
    RetriedIff(maxAttempts, f, last, calls, pauses);
    assert f(0) == SubscribeOutcome(codec, dec, replies(0));
    hide RetryRun, ReadBytes, DecodeErrorResponse, IsEventStream, Handshake;
    hide Chunks, Concat, NamedCode, Transient, Unbroken;
    if f(0).Err? && Transient(f(0).error) {
      SubscribeRetriesErrorReplies(codec, dec, replies(0));
    }
    if ErrorReply(replies(0)) {
      var reply := replies(0);
      ReadIffUnbroken(reply.script);
      if Unbroken(reply.script) {
        WholeBody(reply.script);
        DecodedTransientIff(dec, reply.status, reply.headers, Concat(Chunks(reply.script)), reply.at);
      } else {
        TransportIsLasting(ReadBytes(reply.script).error);
      }
    }
  }

  /** A JSON call is sent again under the same condition, if the body is also within the response cap. */
  lemma {:induction false} JsonRetriedIff<V>(
    maxAttempts: u32, dec: ErrorDecoder, decode: Bytes -> Option<V>, replies: u32 -> Reply,
    r: Result<(V, Option<Text>), Error>, calls: seq<u32>, pauses: seq<Duration>)
    requires RetryRun(maxAttempts, i => SendOnceJson(dec, decode, replies(i)), r, calls, pauses)
    ensures |calls| > 1 <==>
              && maxAttempts > 0
              && ErrorReply(replies(0))
              && Unbroken(replies(0).script)
              && var body := Concat(Chunks(replies(0).script));
              && |body| <= 1_048_576
              && match NamedCode(dec, body)
                 case Some(code) => TransientCode(code)
                 case None => replies(0).status == 503
  {
    var f := i => SendOnceJson(dec, decode, replies(i));
    RetriedIff(maxAttempts, f, r, calls, pauses);
    assert f(0) == SendOnceJson(dec, decode, replies(0));
    hide RetryRun, ReadBytes, DecodeErrorResponse, Chunks, Concat, NamedCode, Unbroken;
    if replies(0).Reply? {
      var reply := replies(0);
      ReadIffUnbroken(reply.script);
      if Unbroken(reply.script) {
        JsonOutcome(dec, decode, reply);
        DecodedTransientIff(dec, reply.status, reply.headers, Concat(Chunks(reply.script)), reply.at);
      }
    }
  }

  lemma {:induction false} TransportIsLasting(e: Error)
    requires e.Transport?
    ensures !Transient(e)
  {
  }

  /** For instance a bare 503 is followed by another handshake whenever retries are allowed. */
  lemma {:induction false} BareUnavailableRetried(
    maxAttempts: u32, codec: Codec, dec: ErrorDecoder, replies: u32 -> Reply, headers: Headers, at: int,
    r: Result<(Text, Option<Text>, StreamState), Error>, calls: seq<u32>, pauses: seq<Duration>)
    requires SubscribeRun(maxAttempts, codec, dec, replies, r, calls, pauses)
    requires replies(0) == Reply(503, headers, [], at)
    ensures |calls| > 1 <==> maxAttempts > 0
  {
    var none: seq<BodyEvent> := [];
    assert Chunks(none) == [] && Concat(Chunks(none)) == [];
    hide SubscribeRun;
    HandshakeRetriedIff(maxAttempts, codec, dec, replies, r, calls, pauses);
  }

  /** For instance a 503 whose body is over the response cap ends a JSON call at once, even when that body
      names a transient code and retries are allowed. */
  lemma {:induction false} OversizeUnavailableIsFinal<V>(
    maxAttempts: u32, dec: ErrorDecoder, decode: Bytes -> Option<V>, replies: u32 -> Reply,
    headers: Headers, body: Bytes, at: int,
    r: Result<(V, Option<Text>), Error>, calls: seq<u32>, pauses: seq<Duration>)
    requires RetryRun(maxAttempts, i => SendOnceJson(dec, decode, replies(i)), r, calls, pauses)
    requires |body| > MAX_RESPONSE_BYTES && replies(0) == Reply(503, headers, [Chunk(body)], at)
    ensures |calls| == 1 && r.Err? && r.error.Api? && r.error.code == MalformedResponse && r.error.httpStatus == 503
  {
    var none: seq<BodyEvent> := [Chunk(body)][1..];
    assert none == [] && ReadBytes(none) == Ok([]);
    assert body + [] == body && ReadBytes([Chunk(body)]) == Ok(body);
    RetriedIff(maxAttempts, i => SendOnceJson(dec, decode, replies(i)), r, calls, pauses);
    hide ReadBytes, DecodeErrorResponse;
  }

  // ----- How long a call can wait -----

  function Total(pauses: seq<Duration>): nat {
    if pauses == [] then 0 else Total(pauses[..|pauses| - 1]) + pauses[|pauses| - 1]
  }

  /** The schedule without hints, in milliseconds. */
  function ScheduleMillis(k: nat): nat {
    if k == 0 then 0 else if k == 1 then 100 else if k == 2 then 2100 else 7100 + 10000 * (k - 3)
  }

  /** Without hints, the total pause after `k` retries is 0, 100, 2100, 7100 and then 10 s more each. */
  lemma {:induction false} TotalWithoutHints(pauses: seq<Duration>)
    requires |pauses| < 0x1_0000_0000
    requires forall i | 0 <= i < |pauses| :: pauses[i] == FallbackBackoff(i as u32)
    ensures Total(pauses) == ScheduleMillis(|pauses|) * NANOS_PER_MILLI
  {
    if pauses != [] {
      var k := |pauses| - 1;
      TotalWithoutHints(pauses[..k]);
      assert pauses[k] == FallbackBackoff(k as u32);
    }
  }

  lemma {:induction false} TotalIsBounded(pauses: seq<Duration>)
    requires forall i | 0 <= i < |pauses| :: pauses[i] <= MAX_RETRY_AFTER
    ensures Total(pauses) <= |pauses| * MAX_RETRY_AFTER
  {
    if pauses != [] {
      TotalIsBounded(pauses[..|pauses| - 1]);
    }
  }

  /** Over any run: the total pause is at most an hour for each retry; and when no error carried a
      hint it is exactly the schedule's. */
  lemma {:induction false} RetryRunWaits<T>(maxAttempts: u32, f: u32 -> Result<T, Error>,
                         r: Result<T, Error>, calls: seq<u32>, pauses: seq<Duration>)
    requires RetryRun(maxAttempts, f, r, calls, pauses)
    ensures |pauses| <= maxAttempts as nat && Total(pauses) <= |pauses| * MAX_RETRY_AFTER
    ensures (forall i | 0 <= i < |pauses| :: f(calls[i]).error.retryAfter.None?) ==>
              Total(pauses) == ScheduleMillis(|pauses|) * NANOS_PER_MILLI
  {
    TotalIsBounded(pauses);
    if forall i | 0 <= i < |pauses| :: f(calls[i]).error.retryAfter.None? {
      forall i | 0 <= i < |pauses| ensures pauses[i] == FallbackBackoff(i as u32) {
        assert calls[i] == i as u32;
      }
      TotalWithoutHints(pauses);
    }
  }
}
