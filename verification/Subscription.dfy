// The subscription stream (src/semantik/subscribe.rs): the handshake's first-frame loop, and the
// poll loop that delivers match events.

module Subscriptions {
  import opened Basics
  import opened SseFrames
  import opened SseScanner
  import opened Errors

  const MATCH := Ascii("match")
  const SUBSCRIBED := Ascii("subscribed")

  datatype MatchEvent = MatchEvent(messageId: Text, score: real)

  // Decoders from outside this model: UTF-8, and the JSON payloads of the two frame kinds.
  // `subscribed` gives the subscription id, which may be empty.
  datatype Codec = Codec(lossy: Lossy, subscribed: Text -> Option<Text>, matched: Text -> Option<MatchEvent>)

  // One answer of the body to a poll. When the script is used up the body answers "end" for ever.
  datatype BodyEvent = Pending | Chunk(bytes: Bytes) | Broken(detail: Text)

  // `polls` counts how often the body has been asked.
  datatype Body = Body(script: seq<BodyEvent>, polls: nat) {
    function Polled(): Body {
      Body(if script == [] then [] else script[1..], polls + 1)
    }
  }

  datatype Poll<T> = NotReady | Ready(value: T)

  type Item = Result<MatchEvent, Error>

  // A snapshot of a Subscription's mutable fields.
  datatype StreamState =
    StreamState(scan: State, pending: seq<Frame>, finished: bool, closedWithError: bool, body: Body)

  function DecodeMatch(codec: Codec, data: Text): Result<MatchEvent, Error> {
    var m := codec.matched(data);
    if m.Some? then Ok(m.value) else Err(MalformedSse(BadMatch(data)))
  }

  function WrapStream(r: Result<MatchEvent, Error>): Item {
    if r.Ok? then r else Err(SubscribeStream(r.error))
  }

  const TOO_LARGE := MalformedSse(TooLarge)

  /** The frames after the first `match` frame, and that frame's decoding. */
  function TakeMatch(codec: Codec, pending: seq<Frame>): (seq<Frame>, Option<Result<MatchEvent, Error>>) {
    if pending == [] then ([], None)
    else if pending[0].event != MATCH then TakeMatch(codec, pending[1..])
    else (pending[1..], Some(DecodeMatch(codec, pending[0].data)))
  }

  /** One call of `poll_next`. */
  function PollStep(codec: Codec, s: StreamState): (StreamState, Poll<Option<Item>>)
    decreases |s.body.script|, if s.finished then 0 else 1
  {
    var (rest, ev) := TakeMatch(codec, s.pending);
    var idle := s.(pending := rest);
    if ev.Some? then (idle, Ready(Some(WrapStream(ev.value))))
    else if s.finished then (idle, Ready(None))
    else
      var polled := idle.(body := s.body.Polled());
      if s.body.script == [] then
        var (scan, last) := CloseStep(codec.lossy, s.scan);
        if last.Err? then
          (polled.(scan := scan, finished := true, closedWithError := true), Ready(Some(WrapStream(Err(TOO_LARGE)))))
        else PollStep(codec, polled.(scan := scan, finished := true, pending := rest + Opt(last.value)))
      else match s.body.script[0]
        case Pending => (polled, NotReady)
        case Broken(detail) =>
          (polled.(finished := true, closedWithError := true), Ready(Some(WrapStream(Err(Transport(detail))))))
        case Chunk(bytes) =>
          var (scan, frames) := FeedStep(codec.lossy, s.scan, bytes);
          if frames.Err? then
            (polled.(scan := scan, finished := true, closedWithError := true), Ready(Some(WrapStream(Err(TOO_LARGE)))))
          else PollStep(codec, polled.(scan := scan, pending := rest + frames.value))
  }

  class Subscription {
    const codec: Codec
    const id: Text
    const requestId: Option<Text>
    const scanner: Scanner
    var body: Body
    var pending: seq<Frame>
    var finished: bool
    var closedWithError: bool

    ghost predicate Valid() {
      scanner.lossy == codec.lossy
    }

    function Snapshot(): StreamState
      reads this, scanner
    {
      StreamState(scanner.Snapshot(), pending, finished, closedWithError, body)
    }

    constructor (codec: Codec, id: Text, requestId: Option<Text>, scanner: Scanner, pending: seq<Frame>, body: Body)
      requires scanner.lossy == codec.lossy
      ensures Valid() && this.codec == codec && this.id == id && this.requestId == requestId && this.scanner == scanner
      ensures Snapshot() == StreamState(scanner.Snapshot(), pending, false, false, body)
    {
      this.codec, this.id, this.requestId, this.scanner := codec, id, requestId, scanner;
      this.body, this.pending := body, pending;
      finished, closedWithError := false, false;
    }

    method TryTakeMatch() returns (r: Option<Result<MatchEvent, Error>>)
      modifies `pending
      ensures (pending, r) == TakeMatch(codec, old(pending))
    {
      while pending != []
        invariant TakeMatch(codec, pending) == TakeMatch(codec, old(pending))
        decreases |pending|
      {
        var frame := pending[0];
        pending := pending[1..];
        if frame.event == MATCH {
          return Some(DecodeMatch(codec, frame.data));
        }
      }
      return None;
    }

    method PollBody() returns (e: Option<BodyEvent>)
      modifies `body
      ensures body == old(body).Polled()
      ensures e == if old(body).script == [] then None else Some(old(body).script[0])
    {
      e := if body.script == [] then None else Some(body.script[0]);
      body := body.Polled();
    }

    method PollNext() returns (r: Poll<Option<Item>>)
      requires Valid()
      modifies this, scanner
      ensures Valid() && (Snapshot(), r) == PollStep(codec, old(Snapshot()))
    {
      hide FeedStep, CloseStep, TakeMatch;
      while true
        invariant PollStep(codec, Snapshot()) == PollStep(codec, old(Snapshot()))
        decreases |body.script|, if finished then 0 else 1
      {
        var ev := TryTakeMatch();
        if ev.Some? {
          return Ready(Some(WrapStream(ev.value)));
        }
        if finished {
          return Ready(None);
        }
        var polled := PollBody();
        match polled {
          case Some(Pending) =>
            return NotReady;
          case Some(Chunk(bytes)) =>
            var frames := scanner.Feed(bytes);
            if frames.Err? {
              finished, closedWithError := true, true;
              return Ready(Some(WrapStream(Err(TOO_LARGE))));
            }
            pending := pending + frames.value;
          case Some(Broken(detail)) =>
            finished, closedWithError := true, true;
            return Ready(Some(WrapStream(Err(Transport(detail)))));
          case None =>
            finished := true;
            var last := scanner.Close();
            if last.Err? {
              closedWithError := true;
              return Ready(Some(WrapStream(Err(TOO_LARGE))));
            }
            pending := pending + Opt(last.value);
        }
      }
    }
  }

  // ----- The handshake -----

  // How the first-frame loop ends: the scanner, the frames behind the first one, the body.
  datatype FirstFrame = FirstFrame(scan: State, pending: seq<Frame>, body: Body, first: Result<Frame, Error>)

  function ReadFirst(codec: Codec, scan: State, pending: seq<Frame>, body: Body): FirstFrame
    decreases |body.script|
  {
    if pending != [] then FirstFrame(scan, pending[1..], body, Ok(pending[0]))
    else if body.script == [] then
      var (scan', last) := CloseStep(codec.lossy, scan);
      FirstFrame(scan', [], body.Polled(),
                 if last.Err? then Err(TOO_LARGE)
                 else if last.value.None? then Err(MalformedSse(ClosedEarly))
                 else Ok(last.value.value))
    else match body.script[0]
      case Pending => ReadFirst(codec, scan, [], body.Polled())
      case Broken(detail) => FirstFrame(scan, [], body.Polled(), Err(Transport(detail)))
      case Chunk(bytes) =>
        var (scan', frames) := FeedStep(codec.lossy, scan, bytes);
        if frames.Err? then FirstFrame(scan', [], body.Polled(), Err(TOO_LARGE))
        else ReadFirst(codec, scan', frames.value, body.Polled())
  }

  /** The subscription id a first frame carries, or why the handshake fails. */
  function AcceptFirst(codec: Codec, first: Frame): Result<Text, Error> {
    if first.event != SUBSCRIBED then Err(MalformedSse(WrongEvent(first.event)))
    else
      var id := codec.subscribed(first.data);
      if id.None? then Err(MalformedSse(BadSubscribed))
      else if id.value == [] then Err(MalformedSse(MissingId))
      else Ok(id.value)
  }

  /** The handshake on an accepted response: the id and the stream it starts, or an error. */
  function Handshake(codec: Codec, script: seq<BodyEvent>): Result<(Text, StreamState), Error> {
    var f := ReadFirst(codec, FRESH, [], Body(script, 0));
    if f.first.Err? then Err(f.first.error)
    else
      var id := AcceptFirst(codec, f.first.value);
      if id.Err? then Err(id.error)
      else Ok((id.value, StreamState(f.scan, f.pending, false, false, f.body)))
  }

  method OpenStream(codec: Codec, requestId: Option<Text>, script: seq<BodyEvent>)
    returns (r: Result<Subscription, Error>)
    ensures r.Ok? <==> Handshake(codec, script).Ok?
    ensures r.Err? ==> r.error == Handshake(codec, script).error
    ensures r.Ok? ==> r.value.Valid() && r.value.codec == codec && r.value.requestId == requestId
    ensures r.Ok? ==> fresh(r.value) && fresh(r.value.scanner)
    ensures r.Ok? ==> (r.value.id, r.value.Snapshot()) == Handshake(codec, script).value
  {
    hide FeedStep, CloseStep, AcceptFirst;
    var scanner := new Scanner(codec.lossy);
    var pending: seq<Frame> := [];
    var body := Body(script, 0);
    var first: Frame;
    while true
      invariant fresh(scanner) && scanner.lossy == codec.lossy
      invariant ReadFirst(codec, scanner.Snapshot(), pending, body) == ReadFirst(codec, FRESH, [], Body(script, 0))
      decreases |body.script|, if pending == [] then 1 else 0
    {
      if pending != [] {
        first := pending[0];
        pending := pending[1..];
        break;
      }
      var answer := if body.script == [] then None else Some(body.script[0]);
      body := body.Polled();
      match answer {
        case Some(Pending) =>
        case Some(Chunk(bytes)) =>
          var frames := scanner.Feed(bytes);
          if frames.Err? {
            return Err(TOO_LARGE);
          }
          pending := frames.value;
        case Some(Broken(detail)) =>
          return Err(Transport(detail));
        case None =>
          var last := scanner.Close();
          if last.Err? {
            return Err(TOO_LARGE);
          }
          if last.value.None? {
            return Err(MalformedSse(ClosedEarly));
          }
          first := last.value.value;
          break;
      }
    }
    var id := AcceptFirst(codec, first);
    if id.Err? {
      return Err(id.error);
    }
    var sub := new Subscription(codec, id.value, requestId, scanner, pending, body);
    return Ok(sub);
  }
}
