// One attempt of a call (src/semantik/transport.rs, send_once_json; src/semantik/subscribe.rs,
// subscribe_once): what a reply is turned into.

module Attempts {
  import opened Basics
  import opened SseScanner
  import opened Errors
  import opened RetryHints
  import opened Subscriptions
  import opened Delivery
  import opened HttpDate

  // ----- The attempts -----

  // What comes back from sending a request; `at` is the clock when the reply is decoded.
  datatype Reply =
    | NoReply(detail: Text)
    | Reply(status: nat, headers: Headers, script: seq<BodyEvent>, at: int)

  predicate IsSuccess(status: nat) {
    200 <= status < 300
  }

  /** The whole body, or the transport error that cut it off. */
  function ReadBytes(script: seq<BodyEvent>): Result<Bytes, Error> {
    if script == [] then Ok([])
    else match script[0]
      case Pending => ReadBytes(script[1..])
      case Broken(detail) => Err(Transport(detail))
      case Chunk(bytes) =>
        var rest := ReadBytes(script[1..]);
        if rest.Err? then rest else Ok(bytes + rest.value)
  }

  const MAX_RESPONSE_BYTES: nat := 1024 * 1024

  function Malformed(message: Text, status: nat): Error {
    Api(MalformedResponse, message, None, None, status)
  }

  function RequestId(headers: Headers): Option<Text> {
    if headers.requestId == Some([]) then None else headers.requestId
  }

  /** `send_once_json`: the decoded value with its request id, or an error. */
  function SendOnceJson<V>(dec: ErrorDecoder, decode: Bytes -> Option<V>, reply: Reply)
    : Result<(V, Option<Text>), Error>
  {
    match reply
    case NoReply(detail) => Err(Transport(detail))
    case Reply(status, headers, script, at) =>
      var body := ReadBytes(script);
      if body.Err? then Err(body.error)
      else if |body.value| > MAX_RESPONSE_BYTES then Err(Malformed(Ascii("response body exceeds cap"), status))
      else if !IsSuccess(status) then Err(DecodeErrorResponse(dec, status, headers, body.value, at))
      else
        var v := decode(body.value);
        if v.None? then Err(Malformed(Ascii("decode response"), status)) else Ok((v.value, RequestId(headers)))
  }

  function LowerCase(s: Text): Text {
    seq(|s|, i requires 0 <= i < |s| => if 65 <= s[i] <= 90 then s[i] + 32 else s[i])
  }

  function BeforeSemicolon(s: Text): Text {
    if s == [] || s[0] == 59 then [] else [s[0]] + BeforeSemicolon(s[1..])
  }

  predicate IsEventStream(contentType: Text) {
    LowerCase(Trim(BeforeSemicolon(contentType))) == Ascii("text/event-stream")
  }

  /** `subscribe_once`: the subscription id, the request id and the stream, or an error. */
  function SubscribeOutcome(codec: Codec, dec: ErrorDecoder, reply: Reply)
    : Result<(Text, Option<Text>, StreamState), Error>
  {
    match reply
    case NoReply(detail) => Err(Transport(detail))
    case Reply(status, headers, script, at) =>
      if !IsSuccess(status) then
        var body := ReadBytes(script);
        if body.Err? then Err(body.error) else Err(DecodeErrorResponse(dec, status, headers, body.value, at))
      else
        var contentType := if headers.contentType.Some? then headers.contentType.value else [];
        if !IsEventStream(contentType) then Err(MalformedSse(WrongContentType(contentType)))
        else
          var h := Handshake(codec, script);
          if h.Err? then Err(h.error) else Ok((h.value.0, RequestId(headers), h.value.1))
  }

  method SubscribeOnce(codec: Codec, dec: ErrorDecoder, reply: Reply) returns (r: Result<Subscription, Error>)
    ensures var o := SubscribeOutcome(codec, dec, reply);
            && (r.Ok? <==> o.Ok?)
            && (r.Err? ==> r.error == o.error)
            && (r.Ok? ==> r.value.Valid() && r.value.codec == codec
                          && (r.value.id, r.value.requestId, r.value.Snapshot()) == o.value)
    ensures r.Ok? ==> fresh(r.value) && fresh(r.value.scanner)
  {
    hide Handshake, DecodeErrorResponse, IsEventStream, ReadBytes;
    match reply {
      case NoReply(detail) =>
        return Err(Transport(detail));
      case Reply(status, headers, script, at) =>
        if !IsSuccess(status) {
          var body := ReadBytes(script);
          if body.Err? {
            return Err(body.error);
          }
          return Err(DecodeErrorResponse(dec, status, headers, body.value, at));
        }
        var contentType := if headers.contentType.Some? then headers.contentType.value else [];
        if !IsEventStream(contentType) {
          return Err(MalformedSse(WrongContentType(contentType)));
        }
        r := OpenStream(codec, RequestId(headers), script);
    }
  }

  // ----- Reading a body -----

  /** An unbroken body is read whole, its chunks in order. */
  lemma {:induction false} WholeBody(script: seq<BodyEvent>)
    requires Unbroken(script)
    ensures ReadBytes(script) == Ok(Concat(Chunks(script)))
  {
    if script != [] {
      assert Unbroken(script[1..]);
      WholeBody(script[1..]);
      if script[0].Chunk? {
        assert Chunks(script)[0] == script[0].bytes && Chunks(script)[1..] == Chunks(script[1..]);
      } else {
        assert Chunks(script) == Chunks(script[1..]);
      }
    }
  }

  /** A body cut off by a transport error gives the first such error and nothing else. */
  lemma {:induction false} CutBody(pre: seq<BodyEvent>, detail: Text, rest: seq<BodyEvent>)
    requires Unbroken(pre)
    ensures ReadBytes(pre + [Broken(detail)] + rest) == Err(Transport(detail))
  {
    var script := pre + [Broken(detail)] + rest;
    if pre != [] {
      assert Unbroken(pre[1..]);
      assert script[0] == pre[0] && script[1..] == pre[1..] + [Broken(detail)] + rest;
      CutBody(pre[1..], detail, rest);
    }
  }

  /** A body is read exactly when no transport error cuts it off. */
  lemma {:induction false} ReadIffUnbroken(script: seq<BodyEvent>)
    ensures ReadBytes(script).Ok? <==> Unbroken(script)
    ensures ReadBytes(script).Err? ==> ReadBytes(script).error.Transport?
  {
    if script != [] {
      ReadIffUnbroken(script[1..]);
      assert Unbroken(script) <==> !script[0].Broken? && Unbroken(script[1..]) by {
        assert forall i | 1 <= i < |script| :: script[i] == script[1..][i - 1];
      }
    }
  }

  // ----- JSON attempts -----

  /** A reply whose status is not a success. */
  predicate ErrorReply(reply: Reply) {
    reply.Reply? && !(200 <= reply.status <= 299)
  }

  /** The request id a header gives: itself unless it is missing or empty. */
  function GivenId(headers: Headers): Option<Text> {
    match headers.requestId
    case Some(id) => if |id| > 0 then Some(id) else None
    case None => None
  }

  // A malformed-response error with this status and no hint.
  predicate IsMalformed<V>(o: Result<V, Error>, status: nat) {
    && o.Err? && o.error.Api?
    && o.error.code == MalformedResponse && o.error.httpStatus == status && o.error.retryAfter == None
  }

  /** What a JSON attempt gives for every reply whose body arrives: the decoded value and the request id
      exactly for a success status, at most 1 MiB and a decodable body; the server's error for another status
      within that size; and a malformed-response error otherwise. */
  lemma {:induction false} JsonOutcome<V>(dec: ErrorDecoder, decode: Bytes -> Option<V>, reply: Reply)
    requires reply.Reply? && Unbroken(reply.script)
    ensures var body := Concat(Chunks(reply.script));
            var o := SendOnceJson(dec, decode, reply);
            if |body| > 1_048_576 then IsMalformed(o, reply.status)
            else if ErrorReply(reply) then
              o == Err(DecodeErrorResponse(dec, reply.status, reply.headers, body, reply.at))
            else
              match decode(body)
              case Some(v) => o == Ok((v, GivenId(reply.headers)))
              case None => IsMalformed(o, reply.status)
  {
    WholeBody(reply.script);
    hide ReadBytes, Chunks, Concat, DecodeErrorResponse, Ascii;
  }

  /** A request that gets no reply, or a body that is cut off, gives the transport error. */
  lemma {:induction false} JsonTransportErrors<V>(
    dec: ErrorDecoder, decode: Bytes -> Option<V>, status: nat, headers: Headers, at: int,
    pre: seq<BodyEvent>, detail: Text, rest: seq<BodyEvent>)
    requires Unbroken(pre)
    ensures SendOnceJson(dec, decode, NoReply(detail)) == Err(Transport(detail))
    ensures var reply := Reply(status, headers, pre + [Broken(detail)] + rest, at);
            SendOnceJson(dec, decode, reply) == Err(Transport(detail))
  {
    CutBody(pre, detail, rest);
    hide ReadBytes, DecodeErrorResponse;
  }

  /** `MalformedResponse` is documented as never produced for an error status. For an error reply whose
      body arrives it is produced exactly when the body is over the response cap (so even a 503 is then
      not retried) or the server itself names that code. */
  lemma {:induction false} MalformedOnErrorStatusIff<V>(dec: ErrorDecoder, decode: Bytes -> Option<V>, reply: Reply)
    requires ErrorReply(reply) && Unbroken(reply.script)
    ensures var body := Concat(Chunks(reply.script));
            var o := SendOnceJson(dec, decode, reply);
            && o.Err? && o.error.Api?
            && (o.error.code == MalformedResponse <==>
                || |body| > 1_048_576
                || (body != [] &&
                    var env := dec.envelope(ReadPart(body));
                    env.Some? && env.value.code == Some(MalformedResponse)))
  {
    WholeBody(reply.script);
    hide ReadBytes, Chunks, Concat, ParseRetryAfter, RetryAfterFromMs;
  }

  // ----- Subscribe attempts -----

  /** A subscribe attempt decodes error replies too, without the size check. There an error status gives
      that code exactly when the server names it in the part of the body that is read. */
  lemma {:induction false} SubscribeMalformedIff(codec: Codec, dec: ErrorDecoder, reply: Reply)
    requires ErrorReply(reply) && Unbroken(reply.script)
    ensures var body := Concat(Chunks(reply.script));
            var env := dec.envelope(ReadPart(body));
            var o := SubscribeOutcome(codec, dec, reply);
            && o.Err? && o.error.Api?
            && (o.error.code == MalformedResponse <==>
                  body != [] && env.Some? && env.value.code == Some(MalformedResponse))
  {
    WholeBody(reply.script);
    hide ReadBytes, Chunks, Concat, ParseRetryAfter, RetryAfterFromMs;
  }

  /** A subscribe attempt succeeds exactly on a success status with the event-stream content type and a first
      frame that is a `subscribed` frame with a decodable, non-empty id. It gives that id, the request id of
      the reply unless it is empty, and a stream that delivers exactly the matches after that frame, and the
      error that ends the body if one does. */
  lemma {:induction false} SubscribeSucceedsIff(codec: Codec, dec: ErrorDecoder, reply: Reply)
    ensures var o := SubscribeOutcome(codec, dec, reply);
            o.Ok? <==>
              && reply.Reply? && 200 <= reply.status <= 299
              && reply.headers.contentType.Some? && IsEventStream(reply.headers.contentType.value)
              && var t := Read(codec.lossy, FRESH, reply.script);
              && t.frames != [] && WelcomeId(codec, t.frames[0]).Some?
    ensures var o := SubscribeOutcome(codec, dec, reply);
            o.Ok? ==>
              var t := Read(codec.lossy, FRESH, reply.script);
              && t.frames != []
              && WelcomeId(codec, t.frames[0]) == Some(o.value.0)
              && o.value.1 == GivenId(reply.headers)
              && Drive(codec, o.value.2) == ItemsOf(codec, Transcript(t.frames[1..], t.end))
  {
    NoContentType();
    if reply.Reply? {
      SubscriptionDelivers(codec, reply.script);
    }
    hide IsEventStream, Handshake, Read, Drive, ItemsOf, WelcomeId, ReadBytes, DecodeErrorResponse;
  }

  // ----- Content types -----

  lemma {:induction false} BeforeSemicolonStops(s: Text, parameters: Text)
    ensures BeforeSemicolon(s + [59] + parameters) == BeforeSemicolon(s)
    ensures LowerCase(BeforeSemicolon(s)) == BeforeSemicolon(LowerCase(s))
  {
    if s == [] {
      assert (s + [59] + parameters)[0] == 59;
    } else {
      assert (s + [59] + parameters)[1..] == s[1..] + [59] + parameters;
      assert LowerCase(s)[1..] == LowerCase(s[1..]);
      BeforeSemicolonStops(s[1..], parameters);
      assert LowerCase([s[0]] + BeforeSemicolon(s[1..])) == [LowerCase(s)[0]] + LowerCase(BeforeSemicolon(s[1..]));
    }
  }

  lemma {:induction false} TrimKeepsCase(s: Text)
    ensures LowerCase(Trim(s)) == Trim(LowerCase(s))
    decreases |s|
  {
    if s != [] {
      var n := |s| - 1;
      if IsSpace(s[0]) {
        TrimKeepsCase(s[1..]);
        assert LowerCase(s)[1..] == LowerCase(s[1..]);
      } else if IsSpace(s[n]) {
        TrimKeepsCase(s[..n]);
        assert LowerCase(s)[..n] == LowerCase(s[..n]);
      }
    }
  }

  /** The content-type test looks neither at letter case nor at parameters. */
  lemma {:induction false} ContentTypeTolerance(a: Text, b: Text, parameters: Text)
    requires LowerCase(a) == LowerCase(b)
    ensures IsEventStream(a) <==> IsEventStream(b + [59] + parameters)
  {
    hide BeforeSemicolon, LowerCase;
    BeforeSemicolonStops(a, parameters);
    BeforeSemicolonStops(b, parameters);
    TrimKeepsCase(BeforeSemicolon(a));
    TrimKeepsCase(BeforeSemicolon(b));
  }

  lemma NoContentType()
    ensures !IsEventStream([])
  {
    assert |LowerCase(Trim(BeforeSemicolon([])))| == 0;
  }

  predicate White(s: Text) {
    forall i | 0 <= i < |s| :: IsSpace(s[i])
  }

  /** `text/event-stream`, each letter in either case. */
  predicate NamesEventStream(m: Text) {
    var name := Ascii("text/event-stream");
    |m| == 17 && forall i | 0 <= i < 17 :: m[i] == name[i] || (65 <= m[i] <= 90 && m[i] + 32 == name[i])
  }

  lemma {:induction false} BeforeFirstSemicolon(s: Text, rest: Text)
    requires 59 !in s && (rest == [] || rest[0] == 59)
    ensures BeforeSemicolon(s + rest) == s
  {
    if s == [] {
      assert s + rest == rest;
    } else {
      assert (s + rest)[1..] == s[1..] + rest;
      BeforeFirstSemicolon(s[1..], rest);
    }
  }

  lemma {:induction false} LowerCaseNames(m: Text)
    ensures LowerCase(m) == Ascii("text/event-stream") <==> NamesEventStream(m)
  {
    var name := Ascii("text/event-stream");
    assert |name| == 17;
    assert forall i | 0 <= i < 17 :: !(65 <= name[i] <= 90) by {
      LowerCaseName();
    }
    hide Ascii;
    var low := LowerCase(m);
    assert forall i | 0 <= i < |m| :: low[i] == if 65 <= m[i] <= 90 then m[i] + 32 else m[i];
    if |m| == 17 && NamesEventStream(m) {
      assert forall i | 0 <= i < 17 :: low[i] == name[i];
    }
  }

  lemma LowerCaseName()
    ensures forall i | 0 <= i < 17 :: !(65 <= Ascii("text/event-stream")[i] <= 90)
  {
    var s := "text/event-stream";
    assert forall i | 0 <= i < 17 :: s[i] == '/' || s[i] == '-' || 'a' <= s[i] <= 'z';
  }

  /** Which content types are accepted: with `m` the text before the first semicolon without white space
      around it, exactly those where `m` is `text/event-stream` in any letter case. */
  lemma {:induction false} EventStreamIff(left: Text, m: Text, right: Text, rest: Text)
    requires White(left) && White(right) && m != [] && !IsSpace(m[0]) && !IsSpace(m[|m| - 1])
    requires 59 !in m && (rest == [] || rest[0] == 59)
    ensures IsEventStream(left + m + right + rest) <==> NamesEventStream(m)
  {
    BeforeFirstSemicolon(left + m + right, rest);
    TrimStrips(left, m, right);
    LowerCaseNames(m);
    hide BeforeSemicolon, LowerCase, Trim, NamesEventStream, Ascii;
  }

  /** Nothing but white space before the first semicolon is not accepted. */
  lemma {:induction false} BlankIsNoEventStream(blank: Text, rest: Text)
    requires White(blank) && (rest == [] || rest[0] == 59)
    ensures !IsEventStream(blank + rest)
  {
    BeforeFirstSemicolon(blank, rest);
    TrimBlank(blank);
    hide BeforeSemicolon, Trim;
    assert |LowerCase([])| == 0;
  }
}
