// Whole runs of a subscription: the handshake and the stream together deliver exactly the match
// frames of the whole body, in order, and an error only as the last item.

module Delivery {
  import opened Basics
  import opened SseLines
  import opened SseFrames
  import opened SseScanner
  import opened SseChunking
  import opened SseRoundTrip
  import opened Errors
  import opened Subscriptions

  // ----- What should be delivered -----

  /** The item of a match frame: its decoded payload, or a mid-stream decode error that quotes it. */
  function MatchItem(codec: Codec, data: Text): Item {
    match codec.matched(data)
    case Some(m) => Ok(m)
    case None => Err(SubscribeStream(MalformedSse(BadMatch(data))))
  }

  // The items of one frame: `match` frames are decoded, every other event is skipped.
  function FrameItems(codec: Codec, f: Frame): seq<Item> {
    if f.event == Ascii("match") then [MatchItem(codec, f.data)] else []
  }

  function Decoded(codec: Codec, frames: seq<Frame>): seq<Item> {
    if frames == [] then [] else FrameItems(codec, frames[0]) + Decoded(codec, frames[1..])
  }

  /** The id in a first frame, if it is a `subscribed` frame with a decodable payload and a non-empty id. */
  function WelcomeId(codec: Codec, f: Frame): Option<Text> {
    var id := codec.subscribed(f.data);
    if f.event == Ascii("subscribed") && id.Some? && |id.value| > 0 then id else None
  }

  /** Why a first frame without such an id is refused. */
  function Refusal(codec: Codec, f: Frame): Error {
    MalformedSse(
      if f.event != Ascii("subscribed") then WrongEvent(f.event)
      else if codec.subscribed(f.data) == None then BadSubscribed
      else MissingId)
  }

  /** The handshake accepts exactly the first frames with an id, and refuses the others for that reason. */
  lemma {:induction false} FirstFrameAcceptedIff(codec: Codec, f: Frame)
    ensures AcceptFirst(codec, f) ==
            if WelcomeId(codec, f).Some? then Ok(WelcomeId(codec, f).value) else Err(Refusal(codec, f))
  {
    hide Ascii;
  }

  // Every frame a script of body events brings, and the error it ends with, if any.
  datatype Transcript = Transcript(frames: seq<Frame>, end: Option<Error>) {
    function After(out: seq<Frame>): Transcript {
      Transcript(out + frames, end)
    }
  }

  function Read(lossy: Lossy, scan: State, script: seq<BodyEvent>): Transcript
    decreases |script|
  {
    if script == [] then
      var last := CloseStep(lossy, scan).1;
      if last.Err? then Transcript([], Some(MalformedSse(TooLarge))) else Transcript(Opt(last.value), None)
    else match script[0]
      case Pending => Read(lossy, scan, script[1..])
      case Broken(detail) => Transcript([], Some(Transport(detail)))
      case Chunk(bytes) =>
        var (scan', frames) := FeedStep(lossy, scan, bytes);
        if frames.Err? then Transcript([], Some(MalformedSse(TooLarge)))
        else Read(lossy, scan', script[1..]).After(frames.value)
  }

  /** The items of a transcript: its match frames, then its error. */
  function ItemsOf(codec: Codec, t: Transcript): seq<Item> {
    Decoded(codec, t.frames) + if t.end.Some? then [Err(SubscribeStream(t.end.value))] else []
  }

  /** What a stream in state `s` still has to deliver. */
  function Future(codec: Codec, s: StreamState): seq<Item> {
    ItemsOf(codec, if s.finished then Transcript(s.pending, None)
                   else Read(codec.lossy, s.scan, s.body.script).After(s.pending))
  }

  // ----- One poll -----

  lemma {:induction false} DecodedCons(codec: Codec, f: Frame, rest: seq<Frame>)
    ensures Decoded(codec, [f] + rest) == FrameItems(codec, f) + Decoded(codec, rest)
  {
    hide FrameItems;
    assert ([f] + rest)[1..] == rest;
  }

  lemma {:induction false} DecodedAppend(codec: Codec, a: seq<Frame>, b: seq<Frame>)
    ensures Decoded(codec, a + b) == Decoded(codec, a) + Decoded(codec, b)
  {
    if a == [] {
      assert a + b == b;
    } else {
      hide Decoded, FrameItems;
      DecodedCons(codec, a[0], a[1..]);
      DecodedCons(codec, a[0], a[1..] + b);
      DecodedAppend(codec, a[1..], b);
      assert a == [a[0]] + a[1..] && a + b == [a[0]] + (a[1..] + b);
      Assoc(FrameItems(codec, a[0]), Decoded(codec, a[1..]), Decoded(codec, b));
    }
  }

  /** Taking a match from the queue takes the first of its items. */
  lemma {:induction false} TakeMatchDecodes(codec: Codec, pending: seq<Frame>)
    ensures var (rest, ev) := TakeMatch(codec, pending);
            && (ev.None? ==> rest == [] && Decoded(codec, pending) == [])
            && (ev.Some? ==> Decoded(codec, pending) == [WrapStream(ev.value)] + Decoded(codec, rest))
            && |rest| <= |pending|
            && (ev.Some? ==> |rest| < |pending|)
  {
    if pending != [] && pending[0].event != MATCH {
      TakeMatchDecodes(codec, pending[1..]);
    }
  }

  // What one poll does to the future of a stream and to the measure of a run.
  predicate Advances(codec: Codec, s: StreamState, s': StreamState, p: Poll<Option<Item>>) {
    && Future(codec, s) ==
       (match p
        case NotReady => Future(codec, s')
        case Ready(None) => []
        case Ready(Some(item)) => [item] + Future(codec, s'))
    && (p != Ready(None) ==> Smaller(s', s))
  }

  predicate Smaller(s': StreamState, s: StreamState) {
    || |s'.body.script| < |s.body.script|
    || (s'.body.script == s.body.script && s'.finished && !s.finished)
    || (s'.body.script == s.body.script && s'.finished == s.finished && |s'.pending| < |s.pending|)
  }

  // The state a poll goes on with when the queue is drained and the body gave a chunk or its end.
  lemma {:induction false} SkippedQueue(codec: Codec, s: StreamState, t: Transcript)
    requires TakeMatch(codec, s.pending).1.None?
    ensures ItemsOf(codec, t.After(s.pending)) == ItemsOf(codec, t)
  {
    TakeMatchDecodes(codec, s.pending);
    DecodedAppend(codec, s.pending, t.frames);
    assert [] + Decoded(codec, t.frames) == Decoded(codec, t.frames);
  }

  lemma {:induction false} TakenFirst(codec: Codec, pending: seq<Frame>, t: Transcript)
    requires TakeMatch(codec, pending).1.Some?
    ensures var (rest, ev) := TakeMatch(codec, pending);
            ItemsOf(codec, t.After(pending)) == [WrapStream(ev.value)] + ItemsOf(codec, t.After(rest))
  {
    hide Decoded, TakeMatch, WrapStream;
    var (rest, ev) := TakeMatch(codec, pending);
    TakeMatchDecodes(codec, pending);
    DecodedAppend(codec, pending, t.frames);
    DecodedAppend(codec, rest, t.frames);
    var end: seq<Item> := if t.end.Some? then [Err(SubscribeStream(t.end.value))] else [];
    var first, d, f := [WrapStream(ev.value)], Decoded(codec, rest), Decoded(codec, t.frames);
    Assoc(first, d, f);
    Assoc(first, d + f, end);
  }

  lemma {:induction false} ItemsOfEnd(codec: Codec, end: Option<Error>)
    ensures ItemsOf(codec, Transcript([], end)) == if end.Some? then [Err(SubscribeStream(end.value))] else []
  {
  }

  // A stream stopped by an error: that error is the last item.
  lemma {:induction false} StopsWith(codec: Codec, s: StreamState, s': StreamState, e: Error)
    requires !s.finished && TakeMatch(codec, s.pending).1.None?
    requires Read(codec.lossy, s.scan, s.body.script) == Transcript([], Some(e))
    requires s'.finished && s'.pending == [] && s'.body == s.body.Polled()
    ensures Advances(codec, s, s', Ready(Some(WrapStream(Err(e)))))
  {
    hide ItemsOf, Read, TakeMatch;
    SkippedQueue(codec, s, Transcript([], Some(e)));
    ItemsOfEnd(codec, Some(e));
    ItemsOfEnd(codec, None);
    assert Transcript([], None).After(s'.pending) == Transcript([], None);
    var item: Item := Err(SubscribeStream(e));
    assert [item] + [] == [item];
  }

  // Going on after the end of the body or after a chunk leaves the future as it was.
  lemma {:induction false} GoesOn(codec: Codec, s: StreamState, n: StreamState)
    requires !s.finished && TakeMatch(codec, s.pending).1.None?
    requires Read(codec.lossy, s.scan, s.body.script) ==
             if n.finished then Transcript(n.pending, None)
             else Read(codec.lossy, n.scan, n.body.script).After(n.pending)
    ensures Future(codec, s) == Future(codec, n)
  {
    hide ItemsOf, TakeMatch;
    SkippedQueue(codec, s, Read(codec.lossy, s.scan, s.body.script));
  }

  lemma {:induction false} TakesMatch(codec: Codec, s: StreamState)
    requires TakeMatch(codec, s.pending).1.Some?
    ensures var (rest, ev) := TakeMatch(codec, s.pending);
            Advances(codec, s, s.(pending := rest), Ready(Some(WrapStream(ev.value))))
  {
    hide ItemsOf, Read, TakeMatch;
    TakenFirst(codec, s.pending, if s.finished then Transcript([], None) else Read(codec.lossy, s.scan, s.body.script));
    TakeMatchDecodes(codec, s.pending);
    var (rest, ev) := TakeMatch(codec, s.pending);
    assert Transcript([], None).After(s.pending) == Transcript(s.pending, None);
    assert Transcript([], None).After(rest) == Transcript(rest, None);
  }

  lemma {:induction false} FinishedEmpty(codec: Codec, s: StreamState, s': StreamState)
    requires s.finished && TakeMatch(codec, s.pending).1.None?
    ensures Advances(codec, s, s', Ready(None))
  {
    TakeMatchDecodes(codec, s.pending);
  }

  lemma {:induction false} PollAdvances(codec: Codec, s: StreamState)
    ensures var (s', p) := PollStep(codec, s); Advances(codec, s, s', p)
    decreases |s.body.script|, if s.finished then 0 else 1
  {
    var (rest, ev) := TakeMatch(codec, s.pending);
    var (s', p) := PollStep(codec, s);
    TakeMatchDecodes(codec, s.pending);
    if ev.Some? {
      hide Advances, TakeMatch;
      TakesMatch(codec, s);
    } else if s.finished {
      hide Advances, TakeMatch;
      FinishedEmpty(codec, s, s');
    } else if s.body.script == [] {
      hide Advances, TakeMatch, CloseStep, Future;
      var (scan, last) := CloseStep(codec.lossy, s.scan);
      if last.Err? {
        StopsWith(codec, s, s', MalformedSse(TooLarge));
      } else {
        var n := s.(body := s.body.Polled(), scan := scan, finished := true, pending := rest + Opt(last.value));
        assert n.pending == Opt(last.value);
        GoesOn(codec, s, n);
        PollAdvances(codec, n);
        AdvancesFrom(codec, s, n, s', p);
      }
    } else {
      hide Advances, TakeMatch, Future;
      PollReads(codec, s);
    }
  }

  lemma {:induction false} AdvancesFrom(codec: Codec, s: StreamState, n: StreamState, s': StreamState,
                                        p: Poll<Option<Item>>)
    requires Future(codec, s) == Future(codec, n) && Advances(codec, n, s', p)
    requires Smaller(n, s) && (|n.body.script| < |s.body.script| || (n.finished && !s.finished))
    ensures Advances(codec, s, s', p)
  {
    hide Future;
  }

  lemma {:induction false} PollReads(codec: Codec, s: StreamState)
    requires !s.finished && s.body.script != [] && TakeMatch(codec, s.pending).1.None?
    ensures var (s', p) := PollStep(codec, s); Advances(codec, s, s', p)
    decreases |s.body.script|, 0
  {
    var (s', p) := PollStep(codec, s);
    TakeMatchDecodes(codec, s.pending);
    var script := s.body.script;
    match script[0] {
      case Pending =>
        hide TakeMatch, FeedStep, CloseStep, ItemsOf;
        var t := Read(codec.lossy, s.scan, script[1..]);
        assert t.After([]) == t;
        SkippedQueue(codec, s, t);
      case Broken(detail) =>
        hide TakeMatch, FeedStep, CloseStep, Advances;
        StopsWith(codec, s, s', Transport(detail));
      case Chunk(bytes) =>
        hide TakeMatch, FeedStep, CloseStep, Advances, Future;
        var (scan, frames) := FeedStep(codec.lossy, s.scan, bytes);
        if frames.Err? {
          StopsWith(codec, s, s', MalformedSse(TooLarge));
        } else {
          var n := s.(body := s.body.Polled(), scan := scan, pending := [] + frames.value);
          assert n.pending == frames.value;
          GoesOn(codec, s, n);
          PollAdvances(codec, n);
          AdvancesFrom(codec, s, n, s', p);
        }
    }
  }

  // ----- Whole runs -----

  /** Poll until the stream ends; the items, in order. */
  function Drive(codec: Codec, s: StreamState): seq<Item>
    decreases |s.body.script|, if s.finished then 0 else 1, |s.pending|
  {
    var (s', p) := PollStep(codec, s);
    assert Advances(codec, s, s', p) by { PollAdvances(codec, s); }
    match p
    case NotReady => Drive(codec, s')
    case Ready(None) => []
    case Ready(Some(item)) => [item] + Drive(codec, s')
  }

  /** Driving a stream yields its future: every match of the queue and the body, then the error. */
  lemma {:induction false} DriveIsFuture(codec: Codec, s: StreamState)
    ensures Drive(codec, s) == Future(codec, s)
    decreases |s.body.script|, if s.finished then 0 else 1, |s.pending|
  {
    hide PollStep, Future;
    PollAdvances(codec, s);
    var (s', p) := PollStep(codec, s);
    if p != Ready(None) {
      DriveIsFuture(codec, s');
    }
  }

  /** The first frame the handshake sees is the first of the transcript, and what it leaves behind is
      the rest of the transcript. */
  lemma {:induction false} ReadFirstIsFirst(codec: Codec, scan: State, pending: seq<Frame>, body: Body)
    ensures var f := ReadFirst(codec, scan, pending, body);
            var t := Read(codec.lossy, scan, body.script).After(pending);
            if t.frames == [] then f.first == Err(if t.end.Some? then t.end.value else MalformedSse(ClosedEarly))
            else
              && f.first == Ok(t.frames[0])
              && Read(codec.lossy, f.scan, f.body.script).After(f.pending) == Transcript(t.frames[1..], t.end)
    decreases |body.script|
  {
    hide FeedStep;
    var script := body.script;
    if pending != [] {
      var t := Read(codec.lossy, scan, script);
      assert (pending + t.frames)[1..] == pending[1..] + t.frames;
    } else if script == [] {
      ClosedStaysClosed(codec.lossy, scan);
    } else {
      hide CloseStep;
      var t := Read(codec.lossy, scan, script);
      assert t.After([]) == t;
      match script[0]
      case Pending =>
        ReadFirstIsFirst(codec, scan, [], body.Polled());
      case Broken(detail) =>
      case Chunk(bytes) =>
        var (scan', frames) := FeedStep(codec.lossy, scan, bytes);
        if frames.Ok? {
          ReadFirstIsFirst(codec, scan', frames.value, body.Polled());
        }
    }
  }

  /** A closed scanner has nothing more to say. */
  lemma {:induction false} ClosedStaysClosed(lossy: Lossy, scan: State)
    ensures var scan' := CloseStep(lossy, scan).0; CloseStep(lossy, scan') == (scan', Ok(None))
  {
    hide ConsumeLine;
  }

  /** Handshake and stream together, over any script: if the transcript has no frame the handshake
      fails; otherwise its first frame decides, and an accepted stream delivers exactly the matches
      among the frames after it, in order, and then the error that ended the transcript. */
  lemma {:induction false} SubscriptionDelivers(codec: Codec, script: seq<BodyEvent>)
    ensures var t := Read(codec.lossy, FRESH, script);
            var h := Handshake(codec, script);
            if t.frames == [] then h == Err(if t.end.Some? then t.end.value else MalformedSse(ClosedEarly))
            else
              var id := WelcomeId(codec, t.frames[0]);
              if id.None? then h == Err(Refusal(codec, t.frames[0]))
              else
                && h.Ok? && h.value.0 == id.value
                && Drive(codec, h.value.1) == ItemsOf(codec, Transcript(t.frames[1..], t.end))
  {
    hide Drive, AcceptFirst, WelcomeId, Refusal, Read, ReadFirst, ItemsOf;
    ReadFirstIsFirst(codec, FRESH, [], Body(script, 0));
    var t := Read(codec.lossy, FRESH, script);
    assert t.After([]) == t;
    if t.frames != [] {
      FirstFrameAcceptedIff(codec, t.frames[0]);
    }
    var h := Handshake(codec, script);
    if h.Ok? {
      DriveIsFuture(codec, h.value.1);
    }
  }

  // ----- Scripts without a transport error -----

  predicate Unbroken(script: seq<BodyEvent>) {
    forall i | 0 <= i < |script| :: !script[i].Broken?
  }

  function Chunks(script: seq<BodyEvent>): seq<Bytes> {
    if script == [] then []
    else (if script[0].Chunk? then [script[0].bytes] else []) + Chunks(script[1..])
  }

  /** The transcript of an unbroken body is the run of the scanner over its chunks. */
  lemma {:induction false} TranscriptIsRun(lossy: Lossy, scan: State, script: seq<BodyEvent>)
    requires Unbroken(script)
    ensures var run := FeedAll(lossy, scan, Chunks(script));
            Read(lossy, scan, script) ==
              if run.failed then Transcript(run.frames, Some(MalformedSse(TooLarge)))
              else
                var last := CloseStep(lossy, run.state).1;
                if last.Err? then Transcript(run.frames, Some(MalformedSse(TooLarge)))
                else Transcript(run.frames + Opt(last.value), None)
    decreases |script|
  {
    hide FeedStep, CloseStep;
    if script == [] {
      assert FeedAll(lossy, scan, []) == Run(scan, [], false);
    } else {
      assert Unbroken(script[1..]);
      if script[0].Chunk? {
        var chunk := script[0].bytes;
        var (scan', r) := FeedStep(lossy, scan, chunk);
        assert Chunks(script)[0] == chunk && Chunks(script)[1..] == Chunks(script[1..]);
        FeedAllFirst(lossy, scan, Chunks(script));
        hide FeedAll;
        if r.Ok? {
          TranscriptIsRun(lossy, scan', script[1..]);
          var run := FeedAll(lossy, scan', Chunks(script[1..]));
          var last := CloseStep(lossy, run.state).1;
          if last.Ok? {
            assert r.value + (run.frames + Opt(last.value)) == (r.value + run.frames) + Opt(last.value);
          }
        }
      } else {
        assert Chunks(script) == Chunks(script[1..]);
        TranscriptIsRun(lossy, scan, script[1..]);
      }
    }
  }

  /** Nothing is lost: for every body that ends without an error, however it is chunked and wherever
      the body was not ready, if the one-shot reading starts with an acceptable `subscribed` frame,
      the items are exactly the decoded `match` frames after it, in order. */
  lemma {:induction false} DeliversWholeBody(codec: Codec, script: seq<BodyEvent>, frames: seq<Frame>)
    requires Unbroken(script) && OneShot(codec.lossy, Concat(Chunks(script))) == Ok(frames)
    requires frames != [] && WelcomeId(codec, frames[0]).Some?
    ensures var h := Handshake(codec, script);
            && h.Ok?
            && h.value.0 == WelcomeId(codec, frames[0]).value
            && Drive(codec, h.value.1) == Decoded(codec, frames[1..])
  {
    hide OneShot, FeedAll, CloseStep, Chunks, Concat, Read, Handshake, Drive, WelcomeId, Decoded;
    ScannerRefinesReference(codec.lossy, Chunks(script));
    TranscriptIsRun(codec.lossy, FRESH, script);
    SubscriptionDelivers(codec, script);
    assert Decoded(codec, frames[1..]) + [] == Decoded(codec, frames[1..]);
  }

  /** An unbroken body over the cap, `k` being the first over-long line of its text: the frames that get
      through are a prefix of the reference frames of the lines before it. If there is none the handshake
      fails with the size error; if the first is accepted, the items are exactly the matches after it and
      then the size error. */
  lemma {:induction false} DeliversUpToOverlongLine(codec: Codec, script: seq<BodyEvent>, k: nat)
    requires Unbroken(script) && FirstOver(codec.lossy, Lines(Concat(Chunks(script))), k)
    ensures k < |Lines(Concat(Chunks(script)))|
    ensures var t := Read(codec.lossy, FRESH, script);
            var h := Handshake(codec, script);
            && t.end == Some(MalformedSse(TooLarge))
            && t.frames <= EmitAll(codec.lossy, Closed(Lines(Concat(Chunks(script)))[..k]))
            && (t.frames == [] ==> h == Err(MalformedSse(TooLarge)))
            && (t.frames != [] && WelcomeId(codec, t.frames[0]).Some? ==>
                  && h.Ok?
                  && h.value.0 == WelcomeId(codec, t.frames[0]).value
                  && Drive(codec, h.value.1) ==
                     Decoded(codec, t.frames[1..]) + [Err(SubscribeStream(MalformedSse(TooLarge)))])
  {
    hide FeedAll, CloseStep, Chunks, Concat, Lines, EmitAll, Closed, FirstOver;
    hide Read, Handshake, Drive, WelcomeId, Decoded;
    OverlongRead(codec.lossy, Chunks(script), k);
    TranscriptIsRun(codec.lossy, FRESH, script);
    SubscriptionDelivers(codec, script);
  }

  /** The transcript of a body cut off by a transport error: the frames of the run over the chunks before
      it. What is left in the scanner is not flushed. */
  lemma {:induction false} TranscriptOfCutBody(lossy: Lossy, scan: State, pre: seq<BodyEvent>, detail: Text,
                                               rest: seq<BodyEvent>)
    requires Unbroken(pre)
    ensures var run := FeedAll(lossy, scan, Chunks(pre));
            Read(lossy, scan, pre + [Broken(detail)] + rest) ==
              Transcript(run.frames, Some(if run.failed then MalformedSse(TooLarge) else Transport(detail)))
    decreases |pre|
  {
    hide FeedStep;
    var script := pre + [Broken(detail)] + rest;
    if pre == [] {
      assert script[0] == Broken(detail);
      assert FeedAll(lossy, scan, []) == Run(scan, [], false);
    } else {
      assert Unbroken(pre[1..]);
      assert script[0] == pre[0] && script[1..] == pre[1..] + [Broken(detail)] + rest;
      if pre[0].Chunk? {
        var (scan', r) := FeedStep(lossy, scan, pre[0].bytes);
        assert Chunks(pre)[0] == pre[0].bytes && Chunks(pre)[1..] == Chunks(pre[1..]);
        FeedAllFirst(lossy, scan, Chunks(pre));
        hide FeedAll;
        if r.Ok? {
          TranscriptOfCutBody(lossy, scan', pre[1..], detail, rest);
        }
      } else {
        assert Chunks(pre) == Chunks(pre[1..]);
        TranscriptOfCutBody(lossy, scan, pre[1..], detail, rest);
      }
    }
  }

  /** A body cut off by a transport error, with no complete line over the cap before: exactly the frames of
      the groups closed before the cut get through, and the open group is lost. The items are the matches
      among them after the first frame, and then the transport error. */
  lemma {:induction false} DeliversUpToCut(codec: Codec, pre: seq<BodyEvent>, detail: Text, rest: seq<BodyEvent>)
    requires Unbroken(pre) && forall k: nat :: !Over(codec.lossy, Complete(Concat(Chunks(pre))), k)
    ensures var frames := EmitAll(codec.lossy, Closed(Complete(Concat(Chunks(pre)))));
            var h := Handshake(codec, pre + [Broken(detail)] + rest);
            && (frames == [] ==> h == Err(Transport(detail)))
            && (frames != [] && WelcomeId(codec, frames[0]).Some? ==>
                  && h.Ok?
                  && h.value.0 == WelcomeId(codec, frames[0]).value
                  && Drive(codec, h.value.1) == Decoded(codec, frames[1..]) + [Err(SubscribeStream(Transport(detail)))])
  {
    hide FeedAll, Chunks, Concat, Complete, EmitAll, Closed, Over, Reading;
    hide Read, Handshake, Drive, WelcomeId, Decoded;
    TranscriptOfCutBody(codec.lossy, FRESH, pre, detail, rest);
    FailureDependsOnBytes(codec.lossy, Chunks(pre));
    ReachableState(codec.lossy, Chunks(pre));
    SubscriptionDelivers(codec, pre + [Broken(detail)] + rest);
  }

  /** End to end: a server that writes a `subscribed` frame and then any frames within the cap, with any
      line ending, cut into any chunks, gets exactly its `match` frames through to the caller, without the
      leading LFs of their data. */
  lemma {:induction false} WrittenFramesArrive(codec: Codec, frames: seq<Frame>, ending: Bytes, script: seq<BodyEvent>)
    requires forall f | f in frames :: Plain(codec.lossy, f) && Fits(f) && ReadBack(f) != BLANK
    requires IsEnding(ending) && Unbroken(script) && Concat(Chunks(script)) == Terminate(StreamLines(frames), ending)
    requires ReadBackAll(frames) != [] && WelcomeId(codec, ReadBackAll(frames)[0]).Some?
    ensures var back := ReadBackAll(frames);
            var h := Handshake(codec, script);
            && h.Ok?
            && h.value.0 == WelcomeId(codec, back[0]).value
            && Drive(codec, h.value.1) == Decoded(codec, back[1..])
  {
    hide *;
    FrameRoundTrip(codec.lossy, frames, ending, Chunks(script));
    ScannerRefinesReference(codec.lossy, Chunks(script));
    DeliversWholeBody(codec, script, ReadBackAll(frames));
  }

  /** The caller's loop over a live subscription: poll until the end, keeping the items. */
  method CollectItems(sub: Subscription) returns (items: seq<Item>)
    requires sub.Valid()
    modifies sub, sub.scanner
    ensures items == Drive(sub.codec, old(sub.Snapshot()))
  {
    hide PollStep, Future;
    items := [];
    while true
      invariant sub.Valid()
      invariant Drive(sub.codec, old(sub.Snapshot())) == items + Drive(sub.codec, sub.Snapshot())
      decreases |sub.body.script|, if sub.finished then 0 else 1, |sub.pending|
    {
      PollAdvances(sub.codec, sub.Snapshot());
      var p := sub.PollNext();
      match p {
        case NotReady =>
        case Ready(None) =>
          return;
        case Ready(Some(item)) =>
          items := items + [item];
      }
    }
  }

  // ----- Safety -----

  /** What every poll keeps: a stream closed with an error is finished, a finished stream never asks
      the body again, a stream with a match in its queue does not ask it either, any other does, and once
      "end" has been returned every later poll returns it and changes nothing. */
  lemma {:induction false} PollSafety(codec: Codec, s: StreamState)
    requires s.closedWithError ==> s.finished
    ensures var (s', p) := PollStep(codec, s);
            && (s'.closedWithError ==> s'.finished)
            && (s.finished ==> s' == s.(pending := s'.pending))
            && (TakeMatch(codec, s.pending).1.Some? ==> s' == s.(pending := s'.pending))
            && (TakeMatch(codec, s.pending).1.None? && !s.finished ==> s'.body.polls > s.body.polls)
            && (p == Ready(None) ==> s'.finished && s'.pending == [] && PollStep(codec, s') == (s', Ready(None)))
            && (s'.closedWithError && !s.closedWithError ==>
                  p.Ready? && p.value.Some? && p.value.value.Err? && s'.pending == [])
    decreases |s.body.script|, if s.finished then 0 else 1
  {
    hide FeedStep, CloseStep;
    var (rest, ev) := TakeMatch(codec, s.pending);
    TakeMatchDecodes(codec, s.pending);
    if ev.None? && !s.finished {
      hide TakeMatch;
      var polled := s.(pending := rest, body := s.body.Polled());
      if s.body.script == [] {
        var (scan, last) := CloseStep(codec.lossy, s.scan);
        if last.Ok? {
          PollSafety(codec, polled.(scan := scan, finished := true, pending := rest + Opt(last.value)));
        }
      } else if s.body.script[0].Chunk? {
        var (scan, frames) := FeedStep(codec.lossy, s.scan, s.body.script[0].bytes);
        if frames.Ok? {
          PollSafety(codec, polled.(scan := scan, pending := rest + frames.value));
        }
      }
    }
  }

  // An item that comes from decoding a frame, not from the end of the stream.
  predicate FromFrame(item: Item) {
    item.Err? ==> item.error.SubscribeStream? && item.error.source.MalformedSse? && item.error.source.fault.BadMatch?
  }

  lemma {:induction false} DecodedFromFrames(codec: Codec, frames: seq<Frame>)
    ensures forall i | 0 <= i < |Decoded(codec, frames)| :: FromFrame(Decoded(codec, frames)[i])
  {
    if frames != [] {
      DecodedFromFrames(codec, frames[1..]);
    }
  }

  /** Over a whole run, from any state: decode errors do not end the stream, and an item that is not
      the decoding of a frame (a scan or transport error) is the last item, so there is at most one. */
  lemma {:induction false} StreamErrorIsLast(codec: Codec, s: StreamState)
    ensures forall i | 0 <= i < |Drive(codec, s)| - 1 :: FromFrame(Drive(codec, s)[i])
  {
    hide Drive, FromFrame, Decoded, Read;
    DriveIsFuture(codec, s);
    var t :=
      if s.finished then Transcript(s.pending, None)
      else Read(codec.lossy, s.scan, s.body.script).After(s.pending);
    DecodedFromFrames(codec, t.frames);
  }
}
