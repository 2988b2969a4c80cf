// Chunk boundaries never matter: what any run of `feed` calls (and the final `close`) gives is a
// function of the concatenated bytes.

module SseChunking {
  import opened Basics
  import opened SseLines
  import opened SseFrames
  import opened SseScanner

  predicate EndsInCr(buf: Bytes) {
    buf != [] && buf[|buf| - 1] == CR
  }

  // What holds of a scanner that is still open and has not failed.
  predicate Coherent(s: State) {
    Settled(s.buf) && s.pendingCr == EndsInCr(s.buf) && !s.closed
  }

  // ----- Draining in two steps -----

  /** Draining cuts the complete lines and consumes them one after the other. */
  lemma {:induction false} DrainIsScan(lossy: Lossy, acc: Acc, data: Bytes)
    ensures var s := Scan(lossy, acc, Complete(data));
            var buf := if s.stop.Some? then Skip(data, s.stop.value + 1) else Rest(data);
            Drain(lossy, acc, data) == Drained(buf, s.acc, s.frames, s.stop.Some?)
    decreases |data|
  {
    hide NextCut, ConsumeLine;
    var cut := NextCut(data, false, false);
    if cut.None? {
      assert Scan(lossy, acc, []) == Fold(acc, [], None);
    } else {
      var (line, advance) := cut.value;
      var tail := data[advance..];
      var (acc', r) := ConsumeLine(lossy, acc, line);
      DrainStep(lossy, acc, data);
      ScanFirst(lossy, acc, line, Complete(tail));
      assert forall n: nat :: Skip(data, n + 1) == Skip(tail, n);
      assert Rest(data) == Rest(tail);
      assert Skip(tail, 0) == tail;
      hide Drain, Scan, Skip, Rest;
      assert Complete(data) == [line] + Complete(tail);
      if r.Ok? {
        DrainIsScan(lossy, acc', tail);
      }
    }
  }

  lemma {:induction false} ScanFirst(lossy: Lossy, acc: Acc, line: Bytes, lines: seq<Bytes>)
    ensures var (acc', r) := ConsumeLine(lossy, acc, line);
            var s := Scan(lossy, acc', lines);
            Scan(lossy, acc, [line] + lines) ==
              if r.Err? then Fold(acc', [], Some(0))
              else Fold(s.acc, Opt(r.value) + s.frames, if s.stop.Some? then Some(s.stop.value + 1) else None)
  {
    hide ConsumeLine;
    assert ([line] + lines)[1..] == lines;
  }

  /** Draining `a + b` is draining `a` and, unless that fails, draining its tail followed by `b`. */
  lemma {:induction false} DrainAppend(lossy: Lossy, acc: Acc, a: Bytes, b: Bytes)
    ensures var d := Drain(lossy, acc, a);
            Drain(lossy, acc, a + b) ==
              if d.failed then d.(buf := d.buf + b) else Behind(d.frames, Drain(lossy, d.acc, d.buf + b))
    decreases |a|
  {
    hide NextCut, ConsumeLine, Drain;
    var cut := NextCut(a, false, false);
    if cut.None? {
      DrainDone(lossy, acc, a);
      assert Behind([], Drain(lossy, acc, a + b)) == Drain(lossy, acc, a + b);
    } else {
      var (line, advance) := cut.value;
      var (acc', r) := ConsumeLine(lossy, acc, line);
      CutAppend(a, b);
      DrainStep(lossy, acc, a);
      DrainStep(lossy, acc, a + b);
      assert (a + b)[advance..] == a[advance..] + b;
      if r.Ok? {
        DrainAppend(lossy, acc', a[advance..], b);
        var d := Drain(lossy, acc', a[advance..]);
        BehindBehind(Opt(r.value), d.frames, Drain(lossy, d.acc, d.buf + b));
      }
    }
  }

  lemma {:induction false} DrainSettles(lossy: Lossy, acc: Acc, data: Bytes)
    requires !Drain(lossy, acc, data).failed
    ensures Settled(Drain(lossy, acc, data).buf)
  {
    DrainIsScan(lossy, acc, data);
    RestSettled(data);
  }

  lemma {:induction false} DrainSettled(lossy: Lossy, acc: Acc, buf: Bytes)
    requires Settled(buf)
    ensures Drain(lossy, acc, buf) == Drained(buf, acc, [], false)
  {
    SettledIffNoCut(buf);
  }

  lemma {:induction false} FeedCoherent(lossy: Lossy, s: State, chunk: Bytes)
    requires !s.closed
    ensures var (s', r) := FeedStep(lossy, s, chunk); r.Ok? ==> Coherent(s')
  {
    if !Drain(lossy, s.acc, s.buf + chunk).failed {
      DrainSettles(lossy, s.acc, s.buf + chunk);
    }
  }

  /** Whatever came before, even a failure: after any `feed`, a set carry flag means that the buffer
      is a single CR-terminated tail. So the next `feed` never takes the carry branch of `next_line`. */
  lemma {:induction false} CarryBranchUnreachable(lossy: Lossy, s: State, chunk: Bytes, next: Bytes)
    ensures var s' := FeedStep(lossy, s, chunk).0;
            s'.pendingCr ==> Settled(s'.buf) && EndsInCr(s'.buf) && (s'.buf + next)[0] != LF
  {
    var d := Drain(lossy, s.acc, s.buf + chunk);
    if !d.failed {
      DrainSettles(lossy, s.acc, s.buf + chunk);
    }
  }

  // ----- Many chunks against one -----

  // A run against draining all its bytes at once. Without a failure the two agree on everything. With
  // one, they agree on the accumulator, the run has lost some last frames, and the one-shot buffer
  // also holds the bytes the run never saw.
  predicate Agree(run: Run, d: Drained) {
    && run.failed == d.failed
    && (!d.failed ==> run == Run(State(d.buf, d.acc, EndsInCr(d.buf), false), d.frames, false))
    && (d.failed ==> run.frames <= d.frames && run.state.acc == d.acc && run.state.buf <= d.buf)
  }

  /** Feeding any chunks to an open scanner is draining all their bytes at once. */
  lemma {:induction false} FeedAllIsDrain(lossy: Lossy, s: State, chunks: seq<Bytes>)
    requires Coherent(s)
    ensures Agree(FeedAll(lossy, s, chunks), Drain(lossy, s.acc, s.buf + Concat(chunks)))
    decreases |chunks|
  {
    if chunks == [] {
      FeedNothing(lossy, s);
    } else {
      assert Concat(chunks) == chunks[0] + Concat(chunks[1..]);
      hide Drain, Settled, FeedAll, Agree, FeedStep, Concat;
      var rest := Concat(chunks[1..]);
      var (s', r) := FeedStep(lossy, s, chunks[0]);
      FeedAllFirst(lossy, s, chunks);
      FeedCoherent(lossy, s, chunks[0]);
      if r.Ok? {
        FeedAllIsDrain(lossy, s', chunks[1..]);
      }
      FeedOneMore(lossy, s, chunks[0], rest, FeedAll(lossy, s', chunks[1..]));
    }
  }

  lemma {:induction false} FeedNothing(lossy: Lossy, s: State)
    requires Coherent(s)
    ensures Agree(FeedAll(lossy, s, []), Drain(lossy, s.acc, s.buf + []))
  {
    assert s.buf + [] == s.buf;
    DrainSettled(lossy, s.acc, s.buf);
  }

  // One `feed` of `chunk`, then a run `t` over the bytes `rest`.
  lemma {:induction false} FeedOneMore(lossy: Lossy, s: State, chunk: Bytes, rest: Bytes, t: Run)
    requires !s.closed
    requires var (s', r) := FeedStep(lossy, s, chunk); r.Ok? ==> Agree(t, Drain(lossy, s'.acc, s'.buf + rest))
    ensures var (s', r) := FeedStep(lossy, s, chunk);
            Agree(if r.Err? then Run(s', [], true) else After(r.value, t), Drain(lossy, s.acc, s.buf + (chunk + rest)))
  {
    hide Drain, Agree;
    assert s.buf + (chunk + rest) == (s.buf + chunk) + rest;
    DrainAppend(lossy, s.acc, s.buf + chunk, rest);
    var (s', r) := FeedStep(lossy, s, chunk);
    if r.Ok? {
      AgreeAfter(r.value, t, Drain(lossy, s'.acc, s'.buf + rest));
    } else {
      FailedAgree(Drain(lossy, s.acc, s.buf + chunk), rest);
    }
  }

  lemma {:induction false} FeedAllFirst(lossy: Lossy, s: State, chunks: seq<Bytes>)
    requires chunks != []
    ensures var (s', r) := FeedStep(lossy, s, chunks[0]);
            FeedAll(lossy, s, chunks) ==
              if r.Err? then Run(s', [], true) else After(r.value, FeedAll(lossy, s', chunks[1..]))
  {
    hide FeedStep;
  }

  lemma {:induction false} FailedAgree(d: Drained, rest: Bytes)
    requires d.failed
    ensures Agree(Run(State(d.buf, d.acc, false, false), [], true), d.(buf := d.buf + rest))
  {
  }

  lemma {:induction false} AgreeAfter(out: seq<Frame>, run: Run, d: Drained)
    requires Agree(run, d)
    ensures Agree(After(out, run), Behind(out, d))
  {
    if d.failed {
      assert run.frames == d.frames[..|run.frames|];
      assert (out + d.frames)[..|out + run.frames|] == out + run.frames;
    }
  }

  lemma {:induction false} FreshIsDrain(lossy: Lossy, chunks: seq<Bytes>)
    ensures Agree(FeedAll(lossy, FRESH, chunks), Drain(lossy, EMPTY, Concat(chunks)))
  {
    assert FRESH.buf + Concat(chunks) == Concat(chunks);
    FeedAllIsDrain(lossy, FRESH, chunks);
  }

  /** Two ways of cutting the same bytes into chunks: both fail or neither does; without a failure
      they leave the same scanner and the same frames, and with one the same accumulator. */
  lemma {:induction false} ChunkIndependence(lossy: Lossy, a: seq<Bytes>, b: seq<Bytes>)
    requires Concat(a) == Concat(b)
    ensures var ra, rb := FeedAll(lossy, FRESH, a), FeedAll(lossy, FRESH, b);
            && ra.failed == rb.failed
            && ra.state.acc == rb.state.acc
            && (!ra.failed ==> ra == rb)
            && (ra.frames <= rb.frames || rb.frames <= ra.frames)
    ensures ReadAll(lossy, a) == ReadAll(lossy, b)
  {
    FreshIsDrain(lossy, a);
    FreshIsDrain(lossy, b);
    hide FeedAll, Drain, CloseStep, Concat;
    var d := Drain(lossy, EMPTY, Concat(a));
    var ra, rb := FeedAll(lossy, FRESH, a), FeedAll(lossy, FRESH, b);
    if d.failed {
      assert ra.frames == d.frames[..|ra.frames|] && rb.frames == d.frames[..|rb.frames|];
    }
  }

  // ----- Against the one-shot reference -----

  /** The reference: split all the bytes into lines, group the lines at blank lines, read each group;
      an error when the counted bytes since the last frame ever exceed the cap. */
  ghost function OneShot(lossy: Lossy, bytes: Bytes): Result<seq<Frame>, ScanError> {
    var lines := Lines(bytes);
    if exists k: nat :: Over(lossy, lines, k) then Err(FrameTooLarge(MAX_SSE_FRAME_BYTES))
    else Ok(EmitAll(lossy, Groups(lines)))
  }

  // Closing a coherent scanner, as a scan of the last line followed by a flush.
  lemma {:induction false} CloseIsScan(lossy: Lossy, s: State)
    requires Coherent(s)
    ensures var t := Scan(lossy, s.acc, Final(s.buf));
            var r := CloseStep(lossy, s).1;
            && (r.Err? <==> t.stop.Some?)
            && (r.Err? ==> r.error == FrameTooLarge(MAX_SSE_FRAME_BYTES))
            && (r.Ok? ==> Opt(r.value) == t.frames + if t.acc.HasFrame() then [Frame(t.acc.event, t.acc.data)] else [])
  {
    if s.buf == [] {
      assert Scan(lossy, s.acc, []) == Fold(s.acc, [], None);
    } else {
      ScanOne(lossy, s.acc, StripTrailingCr(s.buf));
      hide Scan, SplitField;
    }
  }

  // A clean scan and the flush of its accumulator give the frames of all the groups.
  lemma {:induction false} FlushIsReading(lossy: Lossy, lines: seq<Bytes>)
    requires Scan(lossy, EMPTY, lines).stop.None?
    ensures var t := Scan(lossy, EMPTY, lines);
            t.frames + (if t.acc.HasFrame() then [Frame(t.acc.event, t.acc.data)] else []) ==
            EmitAll(lossy, Groups(lines))
  {
    Accumulates(lossy, lines);
    hide Scan, EventOf, DataOf;
  }

  lemma {:induction false} ScanIsOneShot(lossy: Lossy, bytes: Bytes)
    ensures var t := Scan(lossy, EMPTY, Lines(bytes));
            OneShot(lossy, bytes) ==
              if t.stop.Some? then Err(FrameTooLarge(MAX_SSE_FRAME_BYTES))
              else Ok(t.frames + if t.acc.HasFrame() then [Frame(t.acc.event, t.acc.data)] else [])
  {
    StopsAtFirstOver(lossy, Lines(bytes));
    hide Over, Scan, EmitAll, Groups;
    if Scan(lossy, EMPTY, Lines(bytes)).stop.None? {
      FlushIsReading(lossy, Lines(bytes));
    }
  }

  /** The scanner refines the reference: for every list of chunks, feeding them all and closing gives
      exactly the one-shot reading of the concatenated bytes, errors included. */
  lemma {:induction false} ScannerRefinesReference(lossy: Lossy, chunks: seq<Bytes>)
    ensures ReadAll(lossy, chunks) == OneShot(lossy, Concat(chunks))
  {
    var bytes := Concat(chunks);
    FreshIsDrain(lossy, chunks);
    DrainIsScan(lossy, EMPTY, bytes);
    CutsAreLines(bytes);
    ScanAppend(lossy, EMPTY, Complete(bytes), Final(Rest(bytes)));
    ScanIsOneShot(lossy, bytes);
    hide FeedAll, Drain, Scan, OneShot, Complete, Rest, Final, Lines, Concat;
    var run := FeedAll(lossy, FRESH, chunks);
    if !run.failed {
      DrainSettles(lossy, EMPTY, bytes);
      CloseIsScan(lossy, run.state);
      hide CloseStep;
      var t := Scan(lossy, run.state.acc, Final(run.state.buf));
      var flush := if t.acc.HasFrame() then [Frame(t.acc.event, t.acc.data)] else [];
      assert run.frames + (t.frames + flush) == (run.frames + t.frames) + flush;
    }
  }

  /** Every state reached without a failure, spelled out: the buffer is the unfinished tail of the
      bytes, the accumulator reads the open group of their complete lines, and the frames so far are
      those of the closed groups. */
  lemma {:induction false} ReachableState(lossy: Lossy, chunks: seq<Bytes>)
    ensures var bytes := Concat(chunks);
            !FeedAll(lossy, FRESH, chunks).failed ==>
            FeedAll(lossy, FRESH, chunks) ==
            Run(State(Rest(bytes), Reading(lossy, Complete(bytes)), EndsInCr(Rest(bytes)), false),
                EmitAll(lossy, Closed(Complete(bytes))), false)
  {
    hide FeedAll, Drain, Scan, Reading, EmitAll, Closed, Complete, Rest, Concat, Skip;
    FreshIsDrain(lossy, chunks);
    DrainIsScan(lossy, EMPTY, Concat(chunks));
    if !FeedAll(lossy, FRESH, chunks).failed {
      Accumulates(lossy, Complete(Concat(chunks)));
    }
  }

  // ----- Failures -----

  // A scan that stops at line `k` ends in the state of scanning just the lines up to it.
  lemma {:induction false} StopIsPrefix(lossy: Lossy, acc: Acc, lines: seq<Bytes>, k: nat)
    requires Scan(lossy, acc, lines).stop == Some(k)
    ensures k < |lines| && Scan(lossy, acc, lines[..k + 1]) == Scan(lossy, acc, lines)
  {
    hide Scan;
    ScanAppend(lossy, acc, lines[..k + 1], lines[k + 1..]);
    assert lines[..k + 1] + lines[k + 1..] == lines;
  }

  lemma {:induction false} CleanBeforeOver(lossy: Lossy, lines: seq<Bytes>, k: nat)
    requires FirstOver(lossy, lines, k) && k <= |lines|
    ensures Scan(lossy, EMPTY, lines[..k]).stop.None?
  {
    hide Over, Scan;
    StopsIffOver(lossy, lines[..k]);
    forall j: nat ensures !Over(lossy, lines[..k], j) {
      if j < k {
        OverPrefix(lossy, lines, k, j);
      } else {
        OverIsIndex(lossy, lines[..k], j);
      }
    }
  }

  lemma {:induction false} OverIsIndex(lossy: Lossy, lines: seq<Bytes>, j: nat)
    ensures Over(lossy, lines, j) ==> j < |lines|
  {
  }

  // What stopping at the over-long line `k` leaves: the text read and the frames completed before it.
  function Stopped(lossy: Lossy, lines: seq<Bytes>, k: nat): Fold
    requires k < |lines|
  {
    Fold(Reading(lossy, lines[..k]).(size := SinceEmit(lossy, lines[..k + 1])),
         EmitAll(lossy, Closed(lines[..k])),
         Some(k))
  }

  lemma {:induction false} ScanStopped(lossy: Lossy, lines: seq<Bytes>, k: nat)
    requires FirstOver(lossy, lines, k)
    ensures k < |lines| && Scan(lossy, EMPTY, lines) == Stopped(lossy, lines, k)
  {
    OverIsIndex(lossy, lines, k);
    hide Over, Scan, ConsumeLine, EmitAll, Closed, SinceEmit;
    StopsIffOver(lossy, lines);
    StopIsPrefix(lossy, EMPTY, lines, k);
    CleanBeforeOver(lossy, lines, k);
    var h := lines[..k + 1];
    assert h[..|h| - 1] == lines[..k];
    ScanSnoc(lossy, EMPTY, h);
    Accumulates(lossy, lines[..k]);
    ReadingSnoc(lossy, h);
    FailureKeepsText(lossy, Reading(lossy, lines[..k]), h[k]);
  }

  lemma {:induction false} FailsAsScan(lossy: Lossy, chunks: seq<Bytes>)
    ensures var run := FeedAll(lossy, FRESH, chunks);
            var s := Scan(lossy, EMPTY, Complete(Concat(chunks)));
            && run.failed == s.stop.Some?
            && run.state.acc == s.acc
            && run.frames <= s.frames
  {
    FreshIsDrain(lossy, chunks);
    DrainIsScan(lossy, EMPTY, Concat(chunks));
    hide FeedAll, Drain, Scan, Complete, Concat;
  }

  /** Feeding fails exactly when some complete line of the bytes exceeds the cap. */
  lemma {:induction false} FailureDependsOnBytes(lossy: Lossy, chunks: seq<Bytes>)
    ensures FeedAll(lossy, FRESH, chunks).failed <==> exists k: nat :: Over(lossy, Complete(Concat(chunks)), k)
  {
    hide *;
    FailsAsScan(lossy, chunks);
    StopsIffOver(lossy, Complete(Concat(chunks)));
  }

  /** A failing run against the reference, whatever the chunks: the frames handed out are a prefix of the
      frames of the lines before the first over-long line, and the accumulator is the reading of those
      lines with the over-long one counted. */
  lemma {:induction false} FailedRun(lossy: Lossy, chunks: seq<Bytes>, k: nat)
    requires FirstOver(lossy, Complete(Concat(chunks)), k)
    ensures k < |Complete(Concat(chunks))|
    ensures var lines := Complete(Concat(chunks));
            var run := FeedAll(lossy, FRESH, chunks);
            && run.failed
            && run.frames <= EmitAll(lossy, Closed(lines[..k]))
            && run.state.acc == Reading(lossy, lines[..k]).(size := SinceEmit(lossy, lines[..k + 1]))
  {
    hide FeedAll, Scan, Complete, Concat, EmitAll, Closed, Reading, SinceEmit, FirstOver;
    FailsAsScan(lossy, chunks);
    ScanStopped(lossy, Complete(Concat(chunks)), k);
  }

  // The call a failing run stops in.
  lemma {:induction false} FirstFailure(lossy: Lossy, s: State, chunks: seq<Bytes>) returns (j: nat)
    requires FeedAll(lossy, s, chunks).failed
    ensures j < |chunks|
    ensures !FeedAll(lossy, s, chunks[..j]).failed && FeedAll(lossy, s, chunks[..j + 1]).failed
    ensures FeedAll(lossy, s, chunks).frames == FeedAll(lossy, s, chunks[..j]).frames
    decreases |chunks|
  {
    hide FeedStep;
    var (s', r) := FeedStep(lossy, s, chunks[0]);
    if r.Err? {
      j := 0;
      assert chunks[..0] == [] && FeedAll(lossy, s, []) == Run(s, [], false);
      assert chunks[..1][0] == chunks[0];
    } else {
      var i := FirstFailure(lossy, s', chunks[1..]);
      j := i + 1;
      assert chunks[..j][1..] == chunks[1..][..i] && chunks[..j + 1][1..] == chunks[1..][..i + 1];
      FeedAllFirst(lossy, s, chunks[..j]);
      FeedAllFirst(lossy, s, chunks[..j + 1]);
    }
  }

  lemma {:induction false} CompletePrefix(chunks: seq<Bytes>, j: nat)
    requires j <= |chunks|
    ensures Complete(Concat(chunks[..j])) <= Complete(Concat(chunks))
  {
    hide Complete, Concat;
    ConcatSplit(chunks, j);
    SplitAppend(Concat(chunks[..j]), Concat(chunks[j..]));
  }

  lemma {:induction false} FirstOverOfPrefix(lossy: Lossy, lines: seq<Bytes>, n: nat, k: nat)
    requires n <= |lines| && k < n
    ensures FirstOver(lossy, lines, k) <==> FirstOver(lossy, lines[..n], k)
  {
    hide Over;
    forall j: nat | j <= k ensures Over(lossy, lines, j) <==> Over(lossy, lines[..n], j) {
      OverPrefix(lossy, lines, n, j);
    }
  }

  /** A failing run, placed: `k` is the first over-long line of the bytes and `j` the call that completes
      it. The run hands out exactly the reference frames of the lines completed before call `j`; the
      other reference frames before line `k`, if any, were all completed within that call. */
  lemma {:induction false} FailingCall(lossy: Lossy, chunks: seq<Bytes>) returns (j: nat, k: nat)
    requires FeedAll(lossy, FRESH, chunks).failed
    ensures j < |chunks|
    ensures FirstOver(lossy, Complete(Concat(chunks)), k)
    ensures |Complete(Concat(chunks[..j]))| <= k < |Complete(Concat(chunks[..j + 1]))|
    ensures Complete(Concat(chunks[..j])) <= Complete(Concat(chunks[..j + 1])) <= Complete(Concat(chunks))
    ensures FeedAll(lossy, FRESH, chunks).frames == EmitAll(lossy, Closed(Complete(Concat(chunks[..j]))))
    ensures k <= |Complete(Concat(chunks))| &&
            FeedAll(lossy, FRESH, chunks).frames <= EmitAll(lossy, Closed(Complete(Concat(chunks))[..k]))
  {
    hide FeedAll, Complete, Concat, EmitAll, Closed, Over, Reading;
    j := FirstFailure(lossy, FRESH, chunks);
    ReachableState(lossy, chunks[..j]);
    CompletePrefix(chunks, j);
    CompletePrefix(chunks, j + 1);
    CompletePrefix(chunks[..j + 1], j);
    assert chunks[..j + 1][..j] == chunks[..j];
    var before, upTo := Complete(Concat(chunks[..j])), Complete(Concat(chunks[..j + 1]));
    var lines := Complete(Concat(chunks));
    FailureDependsOnBytes(lossy, chunks[..j]);
    FailureDependsOnBytes(lossy, chunks[..j + 1]);
    StopsAtFirstOver(lossy, upTo);
    StopsIffOver(lossy, upTo);
    hide Scan, FirstOver;
    k := Scan(lossy, EMPTY, upTo).stop.value;
    assert lines[..|upTo|] == upTo;
    FirstOverOfPrefix(lossy, lines, |upTo|, k);
    FailedRun(lossy, chunks, k);
    if k < |before| {
      assert upTo[..|before|] == before;
      FirstOverOfPrefix(lossy, upTo, |before|, k);
      FailedRun(lossy, chunks[..j], k);
    }
  }

  /** Reading to the end against the reference, when line `k` of the whole text is the first over-long
      one: the run fails in `feed` or in `close`, and the frames handed out are a prefix of the reference
      frames of the lines before `k`. When `k` is the unterminated last line, which only `close` sees, no
      `feed` fails and none of those frames is lost. */
  lemma {:induction false} OverlongRead(lossy: Lossy, chunks: seq<Bytes>, k: nat)
    requires FirstOver(lossy, Lines(Concat(chunks)), k)
    ensures k < |Lines(Concat(chunks))|
    ensures ReadAll(lossy, chunks).Err?
    ensures FeedAll(lossy, FRESH, chunks).frames <= EmitAll(lossy, Closed(Lines(Concat(chunks))[..k]))
    ensures k >= |Complete(Concat(chunks))| ==>
              && !FeedAll(lossy, FRESH, chunks).failed
              && FeedAll(lossy, FRESH, chunks).frames == EmitAll(lossy, Closed(Lines(Concat(chunks))[..k]))
  {
    hide *;
    OverlongFrames(lossy, chunks, k);
    ScannerRefinesReference(lossy, chunks);
    AnyOverFails(lossy, Concat(chunks), k);
  }

  lemma {:induction false} OverlongFrames(lossy: Lossy, chunks: seq<Bytes>, k: nat)
    requires FirstOver(lossy, Lines(Concat(chunks)), k)
    ensures k < |Lines(Concat(chunks))|
    ensures FeedAll(lossy, FRESH, chunks).frames <= EmitAll(lossy, Closed(Lines(Concat(chunks))[..k]))
    ensures k >= |Complete(Concat(chunks))| ==>
              && !FeedAll(lossy, FRESH, chunks).failed
              && FeedAll(lossy, FRESH, chunks).frames == EmitAll(lossy, Closed(Lines(Concat(chunks))[..k]))
  {
    var lines, cuts := Lines(Concat(chunks)), Complete(Concat(chunks));
    assert |Final(Rest(Concat(chunks)))| <= 1;
    OverIsIndex(lossy, lines, k);
    hide FeedAll, Complete, Concat, Lines, EmitAll, Closed, FirstOver, Over, Reading, Final, SinceEmit, Scan, Rest;
    CutsAreLines(Concat(chunks));
    assert lines[..|cuts|] == cuts;
    if k < |cuts| {
      FirstOverOfPrefix(lossy, lines, |cuts|, k);
      FailedRun(lossy, chunks, k);
      assert cuts[..k] == lines[..k];
    } else {
      CleanBeforeOver(lossy, lines, k);
      FailsAsScan(lossy, chunks);
      ReachableState(lossy, chunks);
    }
  }

  lemma {:induction false} AnyOverFails(lossy: Lossy, bytes: Bytes, k: nat)
    requires FirstOver(lossy, Lines(bytes), k)
    ensures OneShot(lossy, bytes).Err?
  {
    hide Over;
    assert Over(lossy, Lines(bytes), k);
  }
}
