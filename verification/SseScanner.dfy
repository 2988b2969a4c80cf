// The incremental scanner (src/semantik/sse.rs, Scanner): a mutable object, the step functions
// that specify it, and runs over lists of chunks.

module SseScanner {
  import opened Basics
  import opened SseLines
  import opened SseFrames

  // A snapshot of a Scanner's fields.
  datatype State = State(buf: Bytes, acc: Acc, pendingCr: bool, closed: bool)

  const FRESH := State([], EMPTY, false, false)

  // ----- Step functions -----

  // Where draining a buffer stops; `failed` when a line broke the cap.
  datatype Drained = Drained(buf: Bytes, acc: Acc, frames: seq<Frame>, failed: bool)

  function Drain(lossy: Lossy, acc: Acc, buf: Bytes): Drained
    decreases |buf|
  {
    var cut := NextCut(buf, false, false);
    if cut.None? then Drained(buf, acc, [], false)
    else
      var (line, advance) := cut.value;
      var (acc', r) := ConsumeLine(lossy, acc, line);
      if r.Err? then Drained(buf[advance..], acc', [], true)
      else
        var d := Drain(lossy, acc', buf[advance..]);
        d.(frames := Opt(r.value) + d.frames)
  }

  // `d` with `out` already in front of its frames.
  function Behind(out: seq<Frame>, d: Drained): Drained {
    d.(frames := out + d.frames)
  }

  lemma {:induction false} BehindBehind(a: seq<Frame>, b: seq<Frame>, d: Drained)
    ensures Behind(a, Behind(b, d)) == Behind(a + b, d)
  {
    assert a + (b + d.frames) == (a + b) + d.frames;
  }

  /** One turn of the draining loop. */
  lemma {:induction false} DrainStep(lossy: Lossy, acc: Acc, buf: Bytes)
    requires NextCut(buf, false, false).Some?
    ensures var (line, advance) := NextCut(buf, false, false).value;
            var (acc', r) := ConsumeLine(lossy, acc, line);
            Drain(lossy, acc, buf) ==
              if r.Err? then Drained(buf[advance..], acc', [], true)
              else Behind(Opt(r.value), Drain(lossy, acc', buf[advance..]))
  {
    hide NextCut, ConsumeLine;
  }

  lemma {:induction false} DrainDone(lossy: Lossy, acc: Acc, buf: Bytes)
    requires NextCut(buf, false, false).None?
    ensures Drain(lossy, acc, buf) == Drained(buf, acc, [], false)
  {
  }

  /** `feed`: on failure the frames completed in the same call are lost. */
  function FeedStep(lossy: Lossy, s: State, chunk: Bytes): (State, Result<seq<Frame>, ScanError>) {
    var d := Drain(lossy, s.acc, s.buf + chunk);
    if d.failed then (State(d.buf, d.acc, false, s.closed), Err(FrameTooLarge(MAX_SSE_FRAME_BYTES)))
    else (State(d.buf, d.acc, d.buf != [] && d.buf[|d.buf| - 1] == CR, s.closed), Ok(d.frames))
  }

  /** `close`: the tail is a last line, then whatever has accumulated is flushed. */
  function CloseStep(lossy: Lossy, s: State): (State, Result<Option<Frame>, ScanError>) {
    if s.closed then (s, Ok(None))
    else
      var (acc', r) :=
        if s.buf == [] then (s.acc, Ok(None)) else ConsumeLine(lossy, s.acc, StripTrailingCr(s.buf));
      var s' := State([], acc', s.pendingCr, true);
      if r.Err? then (s', Err(r.error))
      else if r.value.Some? || !acc'.HasFrame() then (s', Ok(r.value))
      else (s'.(acc := EMPTY), Ok(Some(Frame(acc'.event, acc'.data))))
  }

  // ----- The object -----

  class Scanner {
    const lossy: Lossy
    var buf: Bytes
    var curEvent: Text
    var curData: Text
    var curSize: nat
    var pendingCr: bool
    var closed: bool

    function Current(): Acc
      reads this
    {
      Acc(curEvent, curData, curSize)
    }

    function Snapshot(): State
      reads this
    {
      State(buf, Current(), pendingCr, closed)
    }

    constructor (lossy: Lossy)
      ensures this.lossy == lossy && Snapshot() == FRESH
    {
      this.lossy := lossy;
      buf, curEvent, curData, curSize, pendingCr, closed := [], [], [], 0, false, false;
    }

    method TakeFrame() returns (f: Frame)
      modifies `curEvent, `curData, `curSize
      ensures f == Frame(old(curEvent), old(curData)) && Current() == EMPTY
    {
      f := Frame(curEvent, curData);
      curEvent, curData, curSize := [], [], 0;
    }

    method ConsumeOne(line: Bytes) returns (r: Result<Option<Frame>, ScanError>)
      modifies `curEvent, `curData, `curSize
      ensures (Current(), r) == ConsumeLine(lossy, old(Current()), line)
      ensures r.Err? ==> r.error == FrameTooLarge(MAX_SSE_FRAME_BYTES)
    {
      if line == [] {
        if curEvent == [] && curData == [] {
          return Ok(None);
        }
        var f := TakeFrame();
        return Ok(Some(f));
      }
      if line[0] == COLON {
        return Ok(None);
      }
      curSize := curSize + |line|;
      if curSize > MAX_SSE_FRAME_BYTES {
        return Err(FrameTooLarge(MAX_SSE_FRAME_BYTES));
      }
      var (field, value) := SplitField(line);
      if field == EVENT {
        curEvent := lossy(value);
      } else if field == DATA {
        if curData != [] {
          curData := curData + [LF];
        }
        curData := curData + lossy(value);
      }
      return Ok(None);
    }

    method Feed(chunk: Bytes) returns (r: Result<seq<Frame>, ScanError>)
      modifies this
      ensures (Snapshot(), r) == FeedStep(lossy, old(Snapshot()), chunk)
    {
      hide ConsumeLine, NextCut, Drain;
      buf := buf + chunk;
      var out: seq<Frame> := [];
      ghost var whole := Drain(lossy, Current(), buf);
      assert whole == Behind([], whole);
      var cut := NextLine(buf, pendingCr, false);
      while cut.Some?
        invariant cut == NextCut(buf, pendingCr, false)
        invariant closed == old(closed)
        invariant whole == Behind(out, Drain(lossy, Current(), buf))
        decreases |buf|
      {
        CarryFlagIrrelevant(buf, pendingCr, false);
        DrainStep(lossy, Current(), buf);
        var (line, advance) := cut.value;
        buf := buf[advance..];
        pendingCr := false;
        var one := ConsumeOne(line);
        if one.Err? {
          return Err(one.error);
        }
        BehindBehind(out, Opt(one.value), Drain(lossy, Current(), buf));
        out := out + Opt(one.value);
        cut := NextLine(buf, pendingCr, false);
      }
      CarryFlagIrrelevant(buf, pendingCr, false);
      DrainDone(lossy, Current(), buf);
      assert out + [] == out;
      pendingCr := buf != [] && buf[|buf| - 1] == CR;
      return Ok(out);
    }

    method Close() returns (r: Result<Option<Frame>, ScanError>)
      modifies this
      ensures (Snapshot(), r) == CloseStep(lossy, old(Snapshot()))
    {
      if closed {
        return Ok(None);
      }
      closed := true;
      if buf != [] {
        var line := buf;
        buf := [];
        var one := ConsumeOne(StripTrailingCr(line));
        if one.Err? || one.value.Some? {
          return one;
        }
      }
      if curEvent != [] || curData != [] {
        var f := TakeFrame();
        return Ok(Some(f));
      }
      return Ok(None);
    }
  }

  // ----- Runs -----

  // A run of `feed` calls; `failed` says the last call made was an error.
  datatype Run = Run(state: State, frames: seq<Frame>, failed: bool)

  /** Feed the chunks in order, stopping at the first error. */
  function FeedAll(lossy: Lossy, s: State, chunks: seq<Bytes>): Run
    decreases |chunks|
  {
    if chunks == [] then Run(s, [], false)
    else
      var (s', r) := FeedStep(lossy, s, chunks[0]);
      if r.Err? then Run(s', [], true)
      else
        var t := FeedAll(lossy, s', chunks[1..]);
        t.(frames := r.value + t.frames)
  }

  function After(out: seq<Frame>, run: Run): Run {
    run.(frames := out + run.frames)
  }

  lemma {:induction false} FeedAllStep(lossy: Lossy, s: State, chunks: seq<Bytes>, i: nat, out: seq<Frame>)
    requires i < |chunks|
    ensures var (s', r) := FeedStep(lossy, s, chunks[i]);
            After(out, FeedAll(lossy, s, chunks[i..])) ==
              if r.Err? then Run(s', out, true)
              else After(out + r.value, FeedAll(lossy, s', chunks[i + 1..]))
  {
    hide FeedStep;
    assert chunks[i..][0] == chunks[i] && chunks[i..][1..] == chunks[i + 1..];
    var (s', r) := FeedStep(lossy, s, chunks[i]);
    if r.Ok? {
      var t := FeedAll(lossy, s', chunks[i + 1..]).frames;
      assert out + (r.value + t) == (out + r.value) + t;
    }
  }

  /** Feed all the chunks, then close. */
  function ReadAll(lossy: Lossy, chunks: seq<Bytes>): Result<seq<Frame>, ScanError> {
    var fed := FeedAll(lossy, FRESH, chunks);
    if fed.failed then Err(FrameTooLarge(MAX_SSE_FRAME_BYTES))
    else
      var r := CloseStep(lossy, fed.state).1;
      if r.Err? then Err(r.error) else Ok(fed.frames + Opt(r.value))
  }

  /** The loop every caller of the scanner runs: feed each chunk, then close. */
  method Collect(lossy: Lossy, chunks: seq<Bytes>) returns (r: Result<seq<Frame>, ScanError>)
    ensures r == ReadAll(lossy, chunks)
  {
    hide FeedStep, CloseStep;
    var scanner := new Scanner(lossy);
    var out: seq<Frame> := [];
    assert chunks[0..] == chunks && After([], FeedAll(lossy, FRESH, chunks)) == FeedAll(lossy, FRESH, chunks);
    for i := 0 to |chunks|
      invariant scanner.lossy == lossy
      invariant FeedAll(lossy, FRESH, chunks) == After(out, FeedAll(lossy, scanner.Snapshot(), chunks[i..]))
    {
      FeedAllStep(lossy, scanner.Snapshot(), chunks, i, out);
      var one := scanner.Feed(chunks[i]);
      if one.Err? {
        return Err(FrameTooLarge(MAX_SSE_FRAME_BYTES));
      }
      out := out + one.value;
    }
    assert FeedAll(lossy, FRESH, chunks) == Run(scanner.Snapshot(), out, false);
    var last := scanner.Close();
    if last.Err? {
      return Err(last.error);
    }
    return Ok(out + Opt(last.value));
  }
}
