// Consequences of the refinement: what the size cap really bounds, and line-ending independence.

module SseProperties {
  import opened Basics
  import opened SseLines
  import opened SseFrames
  import opened SseScanner
  import opened SseChunking

  // ----- The cap -----

  predicate Rejects(lossy: Lossy, h: seq<Bytes>, line: Bytes) {
    ConsumeLine(lossy, Scan(lossy, EMPTY, h).acc, line).1.Err?
  }

  lemma {:induction false} RejectsWhen(lossy: Lossy, h: seq<Bytes>, line: Bytes)
    requires Scan(lossy, EMPTY, h).stop.None? && Counted(line)
    ensures Rejects(lossy, h, line) <==> SinceEmit(lossy, h) + |line| > MAX_SSE_FRAME_BYTES
  {
    Accumulates(lossy, h);
    hide Scan, SinceEmit, SplitField;
  }

  /** The cap is meant per frame. After the lines `h` it is enforced per frame, whatever line comes
      next, exactly when no counted bytes are left over from groups that gave no frame. */
  lemma {:induction false} CapIsPerFrameIff(lossy: Lossy, h: seq<Bytes>)
    requires Scan(lossy, EMPTY, h).stop.None?
    ensures (forall line: Bytes | Counted(line) ::
               Rejects(lossy, h, line) <==> CountedBytes(Open(h)) + |line| > MAX_SSE_FRAME_BYTES)
            <==> SilentBytes(lossy, Closed(h)) == 0
  {
    hide Rejects, Scan, SilentBytes, CountedBytes, Open, Closed, Groups;
    Accumulates(lossy, h);
    forall line: Bytes | Counted(line)
      ensures Rejects(lossy, h, line) <==> SinceEmit(lossy, h) + |line| > MAX_SSE_FRAME_BYTES
    {
      RejectsWhen(lossy, h, line);
    }
    if SilentBytes(lossy, Closed(h)) > 0 {
      var room := MAX_SSE_FRAME_BYTES - CountedBytes(Open(h));
      var line: Bytes := seq(room, _ => 0);
      assert Counted(line) && |line| == room;
      assert Rejects(lossy, h, line);
    }
  }

  const ID_LINE := Ascii("id: 1")

  /** `n` keep-alive groups of one five-byte line each; none of them gives a frame. */
  function KeepAlives(n: nat): seq<Bytes> {
    if n == 0 then [] else KeepAlives(n - 1) + [ID_LINE, []]
  }

  lemma {:induction false} IdLineIsSilent(lossy: Lossy, size: nat)
    ensures ConsumeLine(lossy, Acc([], [], size), ID_LINE) ==
            (Acc([], [], size + 5),
             if size + 5 > MAX_SSE_FRAME_BYTES then Err(FrameTooLarge(MAX_SSE_FRAME_BYTES)) else Ok(None))
  {
    assert ID_LINE[0] == 'i' as int && ID_LINE[1] == 'd' as int && ID_LINE[2] == COLON;
    assert ColonAt(ID_LINE) == 2;
    assert |SplitField(ID_LINE).0| == 2 && |EVENT| == 5 && |DATA| == 4;
  }

  lemma {:induction false} KeepAliveScan(lossy: Lossy, size: nat)
    ensures var s := Scan(lossy, Acc([], [], size), [ID_LINE, []]);
            if size + 5 <= MAX_SSE_FRAME_BYTES then s == Fold(Acc([], [], size + 5), [], None) else s.stop.Some?
  {
    hide Scan, ConsumeLine;
    assert [ID_LINE, []] == [ID_LINE] + [[]];
    ScanAppend(lossy, Acc([], [], size), [ID_LINE], [[]]);
    ScanOne(lossy, Acc([], [], size), ID_LINE);
    IdLineIsSilent(lossy, size);
    ScanOne(lossy, Acc([], [], size + 5), []);
    BlankOnNothing(lossy, size + 5);
  }

  lemma {:induction false} KeepAlivesScan(lossy: Lossy, n: nat)
    ensures var s := Scan(lossy, EMPTY, KeepAlives(n));
            if 5 * n <= MAX_SSE_FRAME_BYTES then s == Fold(Acc([], [], 5 * n), [], None) else s.stop.Some?
  {
    hide Scan;
    if n == 0 {
      ScanNothing(lossy, EMPTY);
    } else {
      KeepAlivesScan(lossy, n - 1);
      ScanAppend(lossy, EMPTY, KeepAlives(n - 1), [ID_LINE, []]);
      KeepAliveScan(lossy, 5 * n - 5);
      hide KeepAlives;
      var s := Scan(lossy, EMPTY, KeepAlives(n - 1));
      assert s.stop.None? ==> s == Fold(Acc([], [], 5 * n - 5), [], None);
    }
  }

  lemma {:induction false} BlankOnNothing(lossy: Lossy, size: nat)
    ensures ConsumeLine(lossy, Acc([], [], size), []) == (Acc([], [], size), Ok(None))
  {
  }

  lemma {:induction false} KeepAlivesBreakFree(n: nat)
    ensures AllBreakFree(KeepAlives(n))
  {
    if n > 0 {
      KeepAlivesBreakFree(n - 1);
      assert BreakFree(ID_LINE);
    }
  }

  lemma {:induction false} KeepAliveGroup(p: seq<Bytes>)
    requires Open(p) == []
    ensures Open(p + [ID_LINE, []]) == [] && Closed(p + [ID_LINE, []]) == Closed(p) + [[ID_LINE]]
    ensures CountedBytes([ID_LINE]) == 5
  {
    var p1, h := p + [ID_LINE], p + [ID_LINE, []];
    assert p1[..|p1| - 1] == p && h[..|h| - 1] == p1;
    assert Counted(ID_LINE);
    OpenSnoc(p1);
    OpenSnoc(h);
    hide Open, Closed, Groups;
    assert [] + [ID_LINE] == [ID_LINE];
    assert [ID_LINE][..0] == [] && CountedBytes([]) == 0;
  }

  lemma {:induction false} KeepAlivesAreSmall(n: nat)
    ensures Open(KeepAlives(n)) == []
    ensures forall g | g in Groups(KeepAlives(n)) :: CountedBytes(g) <= 5
  {
    if n > 0 {
      KeepAlivesAreSmall(n - 1);
      KeepAliveGroup(KeepAlives(n - 1));
      hide Groups, CountedBytes;
      var g := Groups(KeepAlives(n));
      assert g == Closed(KeepAlives(n)) + [[]];
      assert CountedBytes([]) <= 5 by { EmptyGroup((v: Bytes) => v); }
    }
  }

  /** The cap is not per frame: groups of five counted bytes fail the scanner once there are enough
      of them, under every chunking, and not before. */
  lemma {:induction false} CapIsNotPerFrame(lossy: Lossy, n: nat, chunks: seq<Bytes>)
    requires Concat(chunks) == Terminate(KeepAlives(n), [LF])
    ensures forall g | g in Groups(Lines(Concat(chunks))) :: CountedBytes(g) <= 5
    ensures ReadAll(lossy, chunks) ==
            if 5 * n > MAX_SSE_FRAME_BYTES then Err(FrameTooLarge(MAX_SSE_FRAME_BYTES)) else Ok([])
  {
    KeepAlivesAreSmall(n);
    KeepAlivesBreakFree(n);
    LinesOfTerminated(KeepAlives(n), [LF]);
    KeepAlivesScan(lossy, n);
    hide Scan, OneShot, ReadAll, KeepAlives, Lines, Terminate, Concat;
    ScannerRefinesReference(lossy, chunks);
    ScanIsOneShot(lossy, Concat(chunks));
    assert Lines(Concat(chunks)) == KeepAlives(n);
    if 5 * n <= MAX_SSE_FRAME_BYTES {
      assert !Acc([], [], 5 * n).HasFrame();
      var none: seq<Frame> := [];
      assert none + none == none;
    }
  }

  // ----- How large a frame can get -----

  // Decoding makes the value of a line, if it is decoded at all, at most `k` times as long.
  predicate ModestLine(lossy: Lossy, line: Bytes, k: nat) {
    var (field, value) := SplitField(line);
    field == EVENT || field == DATA ==> |lossy(value)| <= k * |value|
  }

  predicate Modest(lossy: Lossy, lines: seq<Bytes>, k: nat) {
    forall i | 0 <= i < |lines| :: ModestLine(lossy, lines[i], k)
  }

  lemma {:induction false} OpenModest(lossy: Lossy, h: seq<Bytes>, k: nat)
    requires Modest(lossy, h, k)
    ensures Modest(lossy, Open(h), k)
  {
    if h != [] {
      var p := h[..|h| - 1];
      assert Modest(lossy, p, k) by { hide ModestLine; }
      OpenModest(lossy, p, k);
      OpenSnoc(h);
      hide ModestLine, Open, Closed, Groups;
    }
  }

  lemma {:induction false} FieldLength(line: Bytes)
    ensures var (field, value) := SplitField(line); |field| + |value| <= |line|
    ensures var (field, value) := SplitField(line); value != [] ==> |field| + |value| < |line|
  {
  }

  lemma {:induction false} GroupSize(lossy: Lossy, group: seq<Bytes>, k: nat)
    requires k >= 1 && Modest(lossy, group, k)
    ensures |EventOf(lossy, group)| + |DataOf(lossy, group)| <= k * CountedBytes(group)
  {
    hide ModestLine, EventOf, DataOf, CountedBytes;
    if group == [] {
      EmptyGroup(lossy);
    } else {
      var p, l := group[..|group| - 1], group[|group| - 1];
      assert group == p + [l];
      assert Modest(lossy, p, k) && l == group[|group| - 1];
      GroupSize(lossy, p, k);
      GroupSizeStep(lossy, p, l, k);
    }
  }

  lemma {:induction false} GroupSizeStep(lossy: Lossy, p: seq<Bytes>, l: Bytes, k: nat)
    requires k >= 1
    requires |EventOf(lossy, p)| + |DataOf(lossy, p)| <= k * CountedBytes(p)
    requires ModestLine(lossy, l, k)
    ensures |EventOf(lossy, p + [l])| + |DataOf(lossy, p + [l])| <= k * CountedBytes(p + [l])
  {
    hide SplitField, EventOf, DataOf, CountedBytes;
    var (field, value) := SplitField(l);
    FieldLength(l);
    GroupSnoc(lossy, p, l);
    assert |DATA| == 4 && |EVENT| == 5;
    hide Ascii;
    if field == DATA {
      Room(k, |EventOf(lossy, p)| + |DataOf(lossy, p)|, CountedBytes(p), |lossy(value)|, |value|, |l|);
    } else if field == EVENT {
      Room(k, |EventOf(lossy, p)| + |DataOf(lossy, p)|, CountedBytes(p), |lossy(value)|, |value|, |l|);
    } else {
      Times(k, CountedBytes(p), CountedBytes(p) + |l|);
    }
  }

  lemma Room(k: nat, text: nat, counted: nat, decoded: nat, value: nat, line: nat)
    requires k >= 1 && text <= k * counted && decoded <= k * value && value < line
    ensures text + decoded + 1 <= k * (counted + line)
  {
    Times(k, value + 1, line);
    assert k * (counted + line) == k * counted + k * line;
  }

  lemma Times(k: nat, x: nat, y: nat)
    requires k >= 1 && x <= y
    ensures k * x <= k * y
    ensures x >= 1 ==> k * (x - 1) + 1 <= k * x
  {
  }

  /** In every state reached without an error and in every frame handed out, the decoded text is at
      most `k` times the cap when decoding stretches no `event` or `data` value by more than `k`. */
  lemma {:induction false} FramesAreBounded(lossy: Lossy, h: seq<Bytes>, k: nat)
    requires Scan(lossy, EMPTY, h).stop.None? && k >= 1 && Modest(lossy, h, k)
    ensures var acc := Scan(lossy, EMPTY, h).acc;
            |acc.event| + |acc.data| <= k * acc.size <= k * MAX_SSE_FRAME_BYTES
    ensures forall f | f in Scan(lossy, EMPTY, h).frames :: |f.event| + |f.data| <= k * MAX_SSE_FRAME_BYTES
  {
    hide ModestLine, EventOf, DataOf, Scan, SinceEmit, Groups;
    AccIsBounded(lossy, h, k);
    if h == [] {
      NothingRead(lossy);
      assert EmitAll(lossy, Closed([])) == [] by { EmptyGroup(lossy); }
    } else {
      var p := h[..|h| - 1];
      CleanPrefix(lossy, h, |h| - 1);
      assert Modest(lossy, p, k) by {
        assert forall i | 0 <= i < |p| :: p[i] == h[i];
      }
      FramesAreBounded(lossy, p, k);
      ScanSnoc(lossy, EMPTY, h);
      var s := Scan(lossy, EMPTY, p);
      var (acc', r) := ConsumeLine(lossy, s.acc, h[|h| - 1]);
      assert r.Ok? ==> r.value.None? || r.value == Some(Frame(s.acc.event, s.acc.data));
    }
  }

  lemma {:induction false} AccIsBounded(lossy: Lossy, h: seq<Bytes>, k: nat)
    requires Scan(lossy, EMPTY, h).stop.None? && k >= 1 && Modest(lossy, h, k)
    ensures var acc := Scan(lossy, EMPTY, h).acc;
            |acc.event| + |acc.data| <= k * acc.size <= k * MAX_SSE_FRAME_BYTES
  {
    hide EventOf, DataOf, Scan, Open, Closed, CountedBytes, SilentBytes;
    Accumulates(lossy, h);
    OpenModest(lossy, h, k);
    GroupSize(lossy, Open(h), k);
    Times(k, CountedBytes(Open(h)), SinceEmit(lossy, h));
    Times(k, SinceEmit(lossy, h), MAX_SSE_FRAME_BYTES);
  }

  /** The buffer of received bytes is under no cap: text without a line break is kept whole, however long,
      and no `feed` fails on it. */
  lemma {:induction false} BufferIsNotCapped(lossy: Lossy, chunks: seq<Bytes>)
    requires BreakFree(Concat(chunks))
    ensures !FeedAll(lossy, FRESH, chunks).failed
    ensures FeedAll(lossy, FRESH, chunks).state.buf == Concat(chunks)
  {
    var bytes := Concat(chunks);
    SettledIffNoCut(bytes);
    assert Settled(bytes);
    NeverOverNothing(lossy);
    hide FeedAll, Complete, Rest, Concat, Over, Settled, BreakFree, Reading, EmitAll, Closed;
    FailureDependsOnBytes(lossy, chunks);
    ReachableState(lossy, chunks);
  }

  lemma {:induction false} NeverOverNothing(lossy: Lossy)
    ensures forall k: nat :: !Over(lossy, [], k)
  {
  }

  // ----- Line endings -----

  /** The same lines ended throughout with LF, CR or CRLF, however they are chunked, read the same. */
  lemma {:induction false} LineEndingIndependence(
    lossy: Lossy, lines: seq<Bytes>, e1: Bytes, e2: Bytes, a: seq<Bytes>, b: seq<Bytes>)
    requires AllBreakFree(lines) && IsEnding(e1) && IsEnding(e2)
    requires Concat(a) == Terminate(lines, e1) && Concat(b) == Terminate(lines, e2)
    ensures ReadAll(lossy, a) == ReadAll(lossy, b)
  {
    ScannerRefinesReference(lossy, a);
    ScannerRefinesReference(lossy, b);
    LinesOfTerminated(lines, e1);
    LinesOfTerminated(lines, e2);
    hide ReadAll, Lines, Concat, Terminate;
  }

  /** Before `close`, bare CR has delivered everything but the effect of the last line. */
  lemma {:induction false} FramesBeforeClose(lossy: Lossy, lines: seq<Bytes>, ending: Bytes, chunks: seq<Bytes>)
    requires AllBreakFree(lines) && IsEnding(ending) && lines != []
    requires Concat(chunks) == Terminate(lines, ending)
    requires !FeedAll(lossy, FRESH, chunks).failed
    ensures FeedAll(lossy, FRESH, chunks).frames ==
            EmitAll(lossy, Closed(if ending == [CR] then lines[..|lines| - 1] else lines))
  {
    BareCrHoldsLastLine(lines, ending);
    FreshIsDrain(lossy, chunks);
    DrainIsScan(lossy, EMPTY, Concat(chunks));
    hide Drain, FeedAll, Scan, EmitAll, Closed, Complete, Terminate, Concat;
    Accumulates(lossy, Complete(Concat(chunks)));
  }
}
