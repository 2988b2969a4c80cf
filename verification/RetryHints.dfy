// Server retry hints (src/semantik/error.rs): the Retry-After header of section 10.2.3 of RFC 9110,
// the retry_after_ms body field, and the error decoder that combines them.

module RetryHints {
  import opened Basics
  import opened Calendar
  import opened HttpDate
  import opened Errors

  // Header values as text; a header that is missing or not readable as text is None.
  datatype Headers = Headers(requestId: Option<Text>, retryAfter: Option<Text>, contentType: Option<Text>)

  // The JSON error envelope; `code` is None when its `error` field is empty.
  datatype Envelope = Envelope(code: Option<ErrorCode>, message: Text, requestId: Text, retryAfterMs: u32)

  // JSON decoding and the excerpt of a malformed body come from outside this model.
  datatype ErrorDecoder = ErrorDecoder(envelope: Bytes -> Option<Envelope>, excerpt: Bytes -> Text)

  const MAX_ERROR_BODY_BYTES: nat := 64 * 1024

  /** The part of an error body that is decoded. */
  function ReadPart(body: Bytes): Bytes {
    if |body| > MAX_ERROR_BODY_BYTES then body[..MAX_ERROR_BODY_BYTES] else body
  }

  function RetryAfterFromMs(ms: u32): Option<Duration> {
    if ms == 0 then None
    else
      var d := ms as nat * NANOS_PER_MILLI;
      if d > MAX_RETRY_AFTER then None else Some(d)
  }

  /** `parse_retry_after_header`; `now` is the clock, in nanoseconds since the Unix epoch. */
  function ParseRetryAfter(header: Option<Text>, now: int): Option<Duration> {
    if header.None? then None
    else
      var v := Trim(header.value);
      if v == [] then None
      else
        var secs := ParseSigned(v, I64_MAX);
        if secs.Some? then
          if secs.value <= 0 then None
          else
            var d: nat := secs.value * NANOS_PER_SEC;
            if d > MAX_RETRY_AFTER then None else Some(d)
        else
          var date := HttpdateParse(v);
          if date.None? then None
          else
            var d := date.value * NANOS_PER_SEC - now;
            if d <= 0 || d > MAX_RETRY_AFTER then None else Some(d)
  }

  function StatusCodeFallback(status: nat): ErrorCode {
    match status
    case 400 => InvalidRequest
    case 401 => Unauthorized
    case 402 => NotBillable
    case 405 => MethodNotAllowed
    case 413 => RequestTooLarge
    case 415 => UnsupportedMediaType
    case 429 => RateLimited
    case 503 => Unavailable
    case _ => InternalError
  }

  function DecodeErrorResponse(dec: ErrorDecoder, status: nat, headers: Headers, body: Bytes, now: int): Error {
    var headerHint := ParseRetryAfter(headers.retryAfter, now);
    var read := ReadPart(body);
    if read == [] then Api(StatusCodeFallback(status), [], headers.requestId, headerHint, status)
    else
      match dec.envelope(read)
      case None => Api(StatusCodeFallback(status), dec.excerpt(read), headers.requestId, headerHint, status)
      case Some(env) =>
        var bodyHint := RetryAfterFromMs(env.retryAfterMs);
        Api(
          if env.code.None? then StatusCodeFallback(status) else env.code.value,
          env.message,
          if env.requestId != [] then Some(env.requestId) else headers.requestId,
          if bodyHint.Some? then bodyHint else headerHint,
          status)
  }

  // ----- The header -----

  /** `n` in decimal. */
  function PrintDec(n: nat): Bytes {
    if n < 10 then [Digit(n)] else PrintDec(n / 10) + [Digit(n % 10)]
  }

  lemma {:induction false} DigitsOfDec(n: nat)
    ensures PrintDec(n) != [] && AllDigits(PrintDec(n)) && Digits(PrintDec(n)) == Some(n)
  {
    if n >= 10 {
      DigitsOfDec(n / 10);
      DigitsSnoc(PrintDec(n / 10), Digit(n % 10));
    }
  }

  lemma {:induction false} DigitsAreNoDate(s: Bytes)
    requires s != [] && AllDigits(s)
    ensures HttpdateParse(s).None?
  {
    if |s| >= 4 {
      assert s[|s| - 4..][0] == s[|s| - 4] && GMT[0] == SPACE;
    }
  }

  /** A delay in seconds, with any white space around it, is honoured exactly from 1 to 3600. */
  lemma {:induction false} HeaderSeconds(header: Text, n: nat, now: int)
    requires Trim(header) == PrintDec(n)
    ensures ParseRetryAfter(Some(header), now) == if 1 <= n <= 3600 then Some(n * NANOS_PER_SEC) else None
  {
    DigitsOfDec(n);
    var s := PrintDec(n);
    assert IsDigit(s[0]);
    DigitsAreNoDate(s);
    hide Digits, PrintDec, Trim, HttpdateParse;
  }

  lemma {:induction false} DatesAreNoNumber(dayName: Bytes, t: DateTime)
    requires InRange(t) && |dayName| == 3
    ensures ParseSigned(Print(dayName, t), I64_MAX).None?
  {
    var s := Print(dayName, t);
    PrintSeparators(dayName, t);
    hide Print, Digits;
    assert s[1..][2] == s[3];
    assert !AllDigits(s) && !AllDigits(s[1..]);
  }

  lemma {:induction false} DateHint(header: Text, unix: nat, now: int)
    requires Trim(header) != [] && ParseSigned(Trim(header), I64_MAX).None? && HttpdateParse(Trim(header)) == Some(unix)
    ensures var ahead := unix * NANOS_PER_SEC - now;
            ParseRetryAfter(Some(header), now) == if 0 < ahead <= MAX_RETRY_AFTER then Some(ahead) else None
  {
    hide ParseSigned, HttpdateParse, Trim;
  }

  /** A date, with any white space around it, is honoured exactly when it is at most an hour ahead. */
  lemma {:induction false} HeaderDate(header: Text, dayName: Bytes, t: DateTime, now: int)
    requires InRange(t) && |dayName| == 3 && Trim(header) == Print(dayName, t)
    ensures ImfToUnix(t).Some?
    ensures var ahead := ImfToUnix(t).value * NANOS_PER_SEC - now;
            ParseRetryAfter(Some(header), now) == if 0 < ahead <= MAX_RETRY_AFTER then Some(ahead) else None
  {
    hide *;
    ParseOfPrint(dayName, t);
    DatesAreNoNumber(dayName, t);
    DateHint(header, ImfToUnix(t).value, now);
  }

  /** The text without one leading plus sign. */
  function Unsigned(s: Text): Text {
    if s != [] && s[0] == PLUS then s[1..] else s
  }

  lemma {:induction false} NumbersAreNoDate(s: Bytes)
    requires s != [] && IsDigit(s[|s| - 1])
    ensures !Accepted(s)
  {
    assert |GMT| == 4 && GMT[3] == 'T' as int;
    if |s| >= 29 {
      assert s[|s| - 4..][3] == s[|s| - 1];
    }
  }

  // A text that is no number in i64 ends up with the date parser, which knows no text ending in a digit.
  lemma {:induction false} NumberOrDate(t: Text)
    ensures var n := Digits(Unsigned(t));
            && (n.Some? ==> !Accepted(t))
            && (n.Some? ==> ParseSigned(t, I64_MAX) == if n.value <= I64_MAX then n else None)
            && (n.None? ==> ParseSigned(t, I64_MAX).None? || (ParseSigned(t, I64_MAX).value <= 0 && !Accepted(t)))
  {
    if Digits(Unsigned(t)).Some? {
      assert IsDigit(t[|t| - 1]) by { assert t[|t| - 1] == Unsigned(t)[|Unsigned(t)| - 1]; }
      NumbersAreNoDate(t);
      assert IsDigit(Unsigned(t)[0]);
    } else if t != [] && t[0] == MINUS && Digits(t[1..]).Some? {
      assert t[1..][|t| - 2] == t[|t| - 1];
      NumbersAreNoDate(t);
    }
    hide Digits, Accepted;
  }

  /** The header for every text and clock: once trimmed, an optional plus sign and digits give their value
      in seconds from 1 to 3600; any date the parser accepts gives the time to it when it is at most an
      hour ahead; everything else gives no hint. */
  lemma {:induction false} HeaderHintIs(header: Text, now: int)
    ensures var t := Trim(header); Accepted(t) ==> ImfToUnix(AcceptedDate(t)).Some?
    ensures var t := Trim(header);
            var n := Digits(Unsigned(t));
            ParseRetryAfter(Some(header), now) ==
              if n.Some? then (if 1 <= n.value <= 3600 then Some(n.value * NANOS_PER_SEC) else None)
              else if Accepted(t) then
                var ahead := ImfToUnix(AcceptedDate(t)).value * NANOS_PER_SEC - now;
                if 0 < ahead <= MAX_RETRY_AFTER then Some(ahead) else None
              else None
  {
    var t := Trim(header);
    hide Digits, ParseSigned, HttpdateParse, ImfToUnix, Trim, Accepted, AcceptedDate, Unsigned;
    NumberOrDate(t);
    AcceptedIff(t);
    EmptyIsNothing();
  }

  lemma EmptyIsNothing()
    ensures Digits(Unsigned([])).None? && !Accepted([])
  {
  }

  // ----- The decoder -----

  predicate FairHint(hint: Option<Duration>) {
    hint.Some? ==> 0 < hint.value <= MAX_RETRY_AFTER
  }

  lemma {:induction false} HeaderHintIsFair(header: Option<Text>, now: int)
    ensures FairHint(ParseRetryAfter(header, now))
  {
    hide Trim, ParseSigned, HttpdateParse;
  }

  /** Whatever the server sends, the decoded error is an API error with the reply's status whose hint
      is absent or in (0, 1 h]. A usable `retry_after_ms` wins over the header. */
  lemma {:induction false} DecodedHints(dec: ErrorDecoder, status: nat, headers: Headers, body: Bytes, now: int)
    ensures var e := DecodeErrorResponse(dec, status, headers, body, now);
            e.Api? && e.httpStatus == status && FairHint(e.retryAfter)
    ensures var e := DecodeErrorResponse(dec, status, headers, body, now);
            var env := dec.envelope(ReadPart(body));
            e.retryAfter ==
              if body != [] && env.Some? && 1 <= env.value.retryAfterMs <= 3_600_000
              then Some(env.value.retryAfterMs as nat * NANOS_PER_MILLI)
              else ParseRetryAfter(headers.retryAfter, now)
  {
    HeaderHintIsFair(headers.retryAfter, now);
    hide ParseRetryAfter, StatusCodeFallback;
  }

  /** What the server names is what the error says: the code, message and request id of a decodable envelope
      in the first 64 KiB of the body. The header's request id stands in for a missing one. */
  lemma {:induction false} DecodedEnvelope(dec: ErrorDecoder, status: nat, headers: Headers, body: Bytes, now: int)
    requires body != []
    ensures var env := dec.envelope(if |body| <= 65536 then body else body[..65536]);
            var e := DecodeErrorResponse(dec, status, headers, body, now);
            env.Some? ==>
              && e.Api?
              && (env.value.code.Some? ==> e.code == env.value.code.value)
              && e.message == env.value.message
              && e.requestId == (if |env.value.requestId| > 0 then Some(env.value.requestId) else headers.requestId)
  {
    hide ParseRetryAfter, StatusCodeFallback, RetryAfterFromMs;
  }

  /** The status each code has when nothing names it; the other codes have none. */
  function StatusOf(code: ErrorCode): Option<nat> {
    match code
    case InvalidRequest => Some(400)
    case Unauthorized => Some(401)
    case NotBillable => Some(402)
    case MethodNotAllowed => Some(405)
    case RequestTooLarge => Some(413)
    case UnsupportedMediaType => Some(415)
    case RateLimited => Some(429)
    case Unavailable => Some(503)
    case _ => None
  }

  /** Without a usable code in the body the status decides it: the one code with that status, or
      InternalError when there is none. A body that does not decode is quoted in the message, and the
      request id is then the header's. */
  lemma {:induction false} CodeFromStatus(dec: ErrorDecoder, status: nat, headers: Headers, body: Bytes, now: int,
                                          code: ErrorCode)
    requires body == [] || var env := dec.envelope(if |body| <= 65536 then body else body[..65536]);
                           env.None? || env.value.code.None?
    ensures var e := DecodeErrorResponse(dec, status, headers, body, now);
            && e.Api?
            && (StatusOf(code) == Some(status) ==> e.code == code)
            && (e.code == code && code != InternalError ==> StatusOf(code) == Some(status))
            && (body == [] ==> e.message == [] && e.requestId == headers.requestId)
            && var part := if |body| <= 65536 then body else body[..65536];
            body != [] && dec.envelope(part).None? ==>
              e.message == dec.excerpt(part) && e.requestId == headers.requestId
  {
    hide ParseRetryAfter, RetryAfterFromMs;
  }
}
