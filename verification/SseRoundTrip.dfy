// The frame round trip: writing frames as lines and scanning them again.

module SseRoundTrip {
  import opened Basics
  import opened SseLines
  import opened SseFrames
  import opened SseScanner
  import opened SseChunking
  import opened SseConformance

  /** Text split at every LF. */
  function Pieces(d: Text): (ps: seq<Text>)
    ensures ps != []
  {
    if d == [] then [[]]
    else if d[0] == LF then [[]] + Pieces(d[1..])
    else
      var ps := Pieces(d[1..]);
      [[d[0]] + ps[0]] + ps[1..]
  }

  function TrimLf(d: Text): Text {
    if d != [] && d[0] == LF then TrimLf(d[1..]) else d
  }

  function FieldLine(name: Bytes, value: Bytes): Bytes {
    name + [COLON, SPACE] + value
  }

  function DataLines(ps: seq<Text>): seq<Bytes> {
    if ps == [] then [] else DataLines(ps[..|ps| - 1]) + [FieldLine(DATA, ps[|ps| - 1])]
  }

  /** The lines of a frame, without the blank line that ends it. */
  function FrameLines(f: Frame): seq<Bytes> {
    [FieldLine(EVENT, f.event)] + DataLines(Pieces(f.data))
  }

  /** The lines of a list of frames, each frame ended by a blank line. */
  function StreamLines(fs: seq<Frame>): seq<Bytes> {
    if fs == [] then [] else StreamLines(fs[..|fs| - 1]) + (FrameLines(fs[|fs| - 1]) + [[]])
  }

  /** What reading a written frame gives back: leading LFs of the data are lost. */
  function ReadBack(f: Frame): Frame {
    Frame(f.event, TrimLf(f.data))
  }

  const BLANK := Frame([], [])

  /** What reading a list of written frames gives back: a frame with nothing left is lost too. */
  function ReadBackAll(fs: seq<Frame>): seq<Frame> {
    if fs == [] then []
    else
      var f := ReadBack(fs[|fs| - 1]);
      ReadBackAll(fs[..|fs| - 1]) + if f == BLANK then [] else [f]
  }

  predicate CrFree(d: Text) {
    forall i | 0 <= i < |d| :: d[i] != CR
  }

  /** Text that can be written: no line break in the event, no CR in the data, and left alone by decoding. */
  predicate Plain(lossy: Lossy, f: Frame) {
    && BreakFree(f.event)
    && CrFree(f.data)
    && lossy(f.event) == f.event
    && forall p | p in Pieces(f.data) :: lossy(p) == p
  }

  /** The lines of the frame are within the cap. */
  predicate Fits(f: Frame) {
    CountedBytes(FrameLines(f)) <= MAX_SSE_FRAME_BYTES
  }

  /** The frame is not blank and its data does not start with LF. */
  predicate Survives(f: Frame) {
    f != BLANK && (f.data == [] || f.data[0] != LF)
  }

  lemma {:induction false} JoinPieces(d: Text)
    ensures JoinLf(Pieces(d)) == d
  {
    hide JoinLf;
    if d == [] {
      assert Pieces([]) == [[]];
      JoinLfCons([], []);
      var none: seq<Text> := [];
      assert [[]] + none == [[]];
    } else {
      var ps := Pieces(d[1..]);
      JoinPieces(d[1..]);
      if d[0] == LF {
        JoinLfCons([], ps);
        assert [] + [LF] + d[1..] == d;
      } else {
        JoinHead(d[0], ps);
        assert d == [d[0]] + d[1..];
      }
    }
  }

  lemma {:induction false} JoinHead(b: byte, ps: seq<Text>)
    requires ps != []
    ensures JoinLf([[b] + ps[0]] + ps[1..]) == [b] + JoinLf(ps)
  {
    hide JoinLf;
    assert ps == [ps[0]] + ps[1..];
    JoinLfCons(ps[0], ps[1..]);
    JoinLfCons([b] + ps[0], ps[1..]);
    var j := JoinLf(ps[1..]);
    assert [b] + (ps[0] + [LF] + j) == [b] + ps[0] + [LF] + j;
  }

  /** Dropping leading empty pieces drops leading LFs. */
  lemma {:induction false} TrimmedPieces(d: Text)
    ensures JoinLf(DropLeadingEmpty(Pieces(d))) == TrimLf(d)
  {
    if d == [] {
      var none: seq<Text> := [[]];
      assert none[1..] == [];
      assert DropLeadingEmpty(none[1..]) == [];
      assert Pieces(d) == none;
    } else if d[0] == LF {
      assert Pieces(d)[1..] == Pieces(d[1..]);
      TrimmedPieces(d[1..]);
      hide JoinLf;
    } else {
      assert Pieces(d)[0] != [];
      JoinPieces(d);
      hide JoinLf, Pieces;
    }
  }

  lemma {:induction false} TrimLfIsIdentityIff(d: Text)
    ensures TrimLf(d) == d <==> d == [] || d[0] != LF
    ensures |TrimLf(d)| <= |d|
  {
    if d != [] && d[0] == LF {
      TrimLfIsIdentityIff(d[1..]);
    }
  }

  lemma {:induction false} SplitFieldLine(name: Bytes, value: Bytes)
    requires COLON !in name
    ensures SplitField(FieldLine(name, value)) == (name, value)
  {
    SplitAtColon(name, value);
  }

  lemma FieldNames()
    ensures COLON !in EVENT && COLON !in DATA && EVENT != DATA
  {
    assert |EVENT| == 5 && |DATA| == 4;
  }

  lemma FieldLinesPlain()
    ensures forall v: Bytes :: Counted(FieldLine(EVENT, v)) && Counted(FieldLine(DATA, v))
    ensures forall v: Bytes | BreakFree(v) :: BreakFree(FieldLine(EVENT, v)) && BreakFree(FieldLine(DATA, v))
  {
    assert |EVENT| == 5 && |DATA| == 4;
    assert EVENT[0] == 'e' as int && DATA[0] == 'd' as int;
    forall v: Bytes ensures FieldLine(EVENT, v)[0] == EVENT[0] && FieldLine(DATA, v)[0] == DATA[0] {
    }
  }

  // What the fields of a group read as.
  predicate Reads(lossy: Lossy, group: seq<Bytes>, e: Text, ps: seq<Text>) {
    EventOf(lossy, group) == e && DataValues(lossy, group) == ps
  }

  lemma {:induction false} EventLineReads(lossy: Lossy, e: Bytes)
    requires lossy(e) == e
    ensures Reads(lossy, [FieldLine(EVENT, e)], e, [])
  {
    hide SplitField, FieldLine, EventOf, DataValues;
    FieldNames();
    hide Ascii;
    SplitFieldLine(EVENT, e);
    NoFields(lossy);
    FieldsSnoc(lossy, [], FieldLine(EVENT, e));
    assert [] + [FieldLine(EVENT, e)] == [FieldLine(EVENT, e)];
  }

  lemma {:induction false} DataLineReads(lossy: Lossy, group: seq<Bytes>, e: Text, ps: seq<Text>, p: Text)
    requires lossy(p) == p && Reads(lossy, group, e, ps)
    ensures Reads(lossy, group + [FieldLine(DATA, p)], e, ps + [p])
  {
    hide SplitField, FieldLine, EventOf, DataValues;
    FieldNames();
    hide Ascii;
    SplitFieldLine(DATA, p);
    FieldsSnoc(lossy, group, FieldLine(DATA, p));
  }

  lemma {:induction false} FrameLinesRead(lossy: Lossy, e: Bytes, ps: seq<Text>)
    requires lossy(e) == e && forall p | p in ps :: lossy(p) == p
    ensures Reads(lossy, [FieldLine(EVENT, e)] + DataLines(ps), e, ps)
  {
    hide Reads, FieldLine, Ascii;
    var first := [FieldLine(EVENT, e)];
    EventLineReads(lossy, e);
    if ps == [] {
      assert first + DataLines([]) == first;
    } else {
      var p, q := ps[|ps| - 1], ps[..|ps| - 1];
      assert p in ps;
      FrameLinesRead(lossy, e, q);
      DataLineReads(lossy, first + DataLines(q), e, q, p);
      assert first + DataLines(ps) == (first + DataLines(q)) + [FieldLine(DATA, p)];
      assert ps == q + [p];
    }
  }

  lemma {:induction false} NoFields(lossy: Lossy)
    ensures EventOf(lossy, []) == [] && DataValues(lossy, []) == []
  {
  }

  lemma {:induction false} DataLinesCounted(ps: seq<Text>)
    ensures forall l | l in DataLines(ps) :: Counted(l)
    ensures (forall p | p in ps :: BreakFree(p)) ==> AllBreakFree(DataLines(ps))
  {
    if ps != [] {
      DataLinesCounted(ps[..|ps| - 1]);
      FieldLinesPlain();
      hide FieldLine, BreakFree, Counted;
    }
  }

  lemma {:induction false} PiecesBreakFree(d: Text)
    requires CrFree(d)
    ensures forall p | p in Pieces(d) :: BreakFree(p)
  {
    if d != [] {
      var ps := Pieces(d[1..]);
      PiecesBreakFree(d[1..]);
      assert BreakFree(ps[0]);
      forall p | p in Pieces(d) ensures BreakFree(p) {
        assert p == [] || p == [d[0]] + ps[0] || p in ps;
      }
    }
  }

  lemma {:induction false} NoFrames(lossy: Lossy)
    ensures EmitAll(lossy, []) == [] && SilentBytes(lossy, []) == 0
  {
  }

  // A group of counted lines within the cap is read without an error.
  lemma {:induction false} GroupScan(lossy: Lossy, group: seq<Bytes>)
    requires forall l | l in group :: Counted(l)
    requires CountedBytes(group) <= MAX_SSE_FRAME_BYTES
    ensures Open(group) == group && Closed(group) == []
    ensures Scan(lossy, EMPTY, group) == Fold(Reading(lossy, group), [], None)
  {
    hide Scan, ConsumeLine, Emit, EventOf, DataOf, Open, Closed, SilentBytes, EmitAll, Counted, Reading;
    NoFrames(lossy);
    EmptyGroup(lossy);
    NothingRead(lossy);
    if group != [] {
      var p, l := group[..|group| - 1], group[|group| - 1];
      assert l in group && p + [l] == group;
      GroupScan(lossy, p);
      ScanSnoc(lossy, EMPTY, group);
      ReadingSnoc(lossy, group);
      OpenSnoc(group);
      assert SinceEmit(lossy, group) == CountedBytes(group);
      var (acc', r) := ConsumeLine(lossy, Reading(lossy, p), l);
      assert ReadsOn(lossy, group, acc', r);
    }
  }

  // Counted lines after a blank line form the open group.
  lemma {:induction false} GroupAfterBlank(h: seq<Bytes>, group: seq<Bytes>)
    requires Open(h) == [] && forall l | l in group :: Counted(l)
    ensures Open(h + group) == group && Closed(h + group) == Closed(h)
  {
    hide Open, Closed, Counted;
    if group == [] {
      assert h + group == h;
    } else {
      var p, l := group[..|group| - 1], group[|group| - 1];
      assert l in group && p + [l] == group;
      GroupAfterBlank(h, p);
      assert (h + group)[..|h + group| - 1] == h + p;
      OpenSnoc(h + group);
    }
  }

  lemma {:induction false} FrameLinesCounted(f: Frame)
    ensures forall l | l in FrameLines(f) :: Counted(l)
  {
    FieldLinesPlain();
    DataLinesCounted(Pieces(f.data));
    hide Counted, FieldLine, Pieces, Ascii;
  }

  /** The lines of one frame read as its event and its data without leading LFs. */
  lemma {:induction false} FrameReads(lossy: Lossy, f: Frame)
    requires Plain(lossy, f)
    ensures EventOf(lossy, FrameLines(f)) == f.event && DataOf(lossy, FrameLines(f)) == TrimLf(f.data)
    ensures Emit(lossy, FrameLines(f)) == if ReadBack(f) == BLANK then [] else [ReadBack(f)]
  {
    FrameLinesRead(lossy, f.event, Pieces(f.data));
    TrimmedPieces(f.data);
    hide EventOf, DataValues, JoinLf, DropLeadingEmpty, Pieces, DataLines, TrimLf, FieldLine;
  }

  /** One written frame that fits and is not lost is read back, leaving nothing accumulated. */
  lemma {:induction false} FrameScan(lossy: Lossy, f: Frame)
    requires Plain(lossy, f) && Fits(f) && ReadBack(f) != BLANK
    ensures Scan(lossy, EMPTY, FrameLines(f) + [[]]) == Fold(EMPTY, [ReadBack(f)], None)
  {
    FrameReads(lossy, f);
    FrameLinesCounted(f);
    hide Scan, EventOf, DataOf, Emit, FrameLines, TrimLf, CountedBytes, Counted, Plain, Open, Closed;
    var group := FrameLines(f);
    GroupScan(lossy, group);
    ScanAppend(lossy, EMPTY, group, [[]]);
    ScanOne(lossy, Reading(lossy, group), []);
  }

  lemma {:induction false} StreamScan(lossy: Lossy, fs: seq<Frame>)
    requires forall f | f in fs :: Plain(lossy, f) && Fits(f) && ReadBack(f) != BLANK
    ensures Scan(lossy, EMPTY, StreamLines(fs)) == Fold(EMPTY, ReadBackAll(fs), None)
  {
    hide Scan, Plain, Fits, FrameLines, ReadBack;
    if fs == [] {
      ScanNothing(lossy, EMPTY);
    } else {
      var p, f := fs[..|fs| - 1], fs[|fs| - 1];
      assert f in fs;
      FrameScan(lossy, f);
      StreamScan(lossy, p);
      ScanAppend(lossy, EMPTY, StreamLines(p), FrameLines(f) + [[]]);
    }
  }

  lemma {:induction false} StreamSnoc(fs: seq<Frame>)
    requires fs != []
    ensures var p, group := fs[..|fs| - 1], FrameLines(fs[|fs| - 1]);
            && StreamLines(fs) == (StreamLines(p) + group) + [[]]
            && StreamLines(fs)[..|StreamLines(fs)| - 1] == StreamLines(p) + group
  {
    hide FrameLines;
    var p, group := fs[..|fs| - 1], FrameLines(fs[|fs| - 1]);
    assert StreamLines(p) + (group + [[]]) == (StreamLines(p) + group) + [[]];
  }

  /** The closed groups of written frames give the frames back, and no group is left open. */
  lemma {:induction false} StreamReads(lossy: Lossy, fs: seq<Frame>)
    requires forall f | f in fs :: Plain(lossy, f)
    ensures Open(StreamLines(fs)) == []
    ensures EmitAll(lossy, Closed(StreamLines(fs))) == ReadBackAll(fs)
  {
    hide Plain, FrameLines, ReadBack, Emit, Groups;
    if fs == [] {
      EmptyGroup(lossy);
      NoFrames(lossy);
    } else {
      var p, f := fs[..|fs| - 1], fs[|fs| - 1];
      assert f in fs;
      StreamReads(lossy, p);
      StreamSnoc(fs);
      FrameLinesCounted(f);
      GroupAfterBlank(StreamLines(p), FrameLines(f));
      OpenSnoc(StreamLines(fs));
      FrameReads(lossy, f);
      BlankReading(lossy, Closed(StreamLines(p)), FrameLines(f));
    }
  }

  /** When the lines of written frames are read without a failure, every frame is within the cap. */
  lemma {:induction false} CleanStreamFits(lossy: Lossy, fs: seq<Frame>)
    requires forall f | f in fs :: Plain(lossy, f)
    requires Scan(lossy, EMPTY, StreamLines(fs)).stop.None?
    ensures forall f | f in fs :: Fits(f)
  {
    hide Plain, FrameLines, Scan, Open, Closed, CountedBytes, SilentBytes;
    if fs != [] {
      var p, f := fs[..|fs| - 1], fs[|fs| - 1];
      var h := StreamLines(p) + FrameLines(f);
      StreamSnoc(fs);
      CleanPrefix(lossy, StreamLines(fs), |h|);
      assert h[..|StreamLines(p)|] == StreamLines(p);
      CleanPrefix(lossy, h, |StreamLines(p)|);
      CleanStreamFits(lossy, p);
      StreamReads(lossy, p);
      FrameLinesCounted(f);
      GroupAfterBlank(StreamLines(p), FrameLines(f));
      Accumulates(lossy, h);
      assert fs == p + [f];
    }
  }

  lemma {:induction false} FrameLinesBreakFree(lossy: Lossy, f: Frame)
    requires Plain(lossy, f)
    ensures AllBreakFree(FrameLines(f) + [[]])
  {
    FieldLinesPlain();
    PiecesBreakFree(f.data);
    DataLinesCounted(Pieces(f.data));
    BreakFreeNothing();
    hide BreakFree, Pieces, FieldLine, Ascii, Counted;
  }

  lemma {:induction false} StreamLinesBreakFree(lossy: Lossy, fs: seq<Frame>)
    requires forall f | f in fs :: Plain(lossy, f)
    ensures AllBreakFree(StreamLines(fs))
  {
    hide Plain, FrameLines, BreakFree;
    if fs != [] {
      assert fs[|fs| - 1] in fs;
      FrameLinesBreakFree(lossy, fs[|fs| - 1]);
      StreamLinesBreakFree(lossy, fs[..|fs| - 1]);
    }
  }

  lemma BreakFreeNothing()
    ensures BreakFree([])
  {
  }

  /** Everything is given back unchanged exactly when every frame survives. */
  lemma {:induction false} ReadBackAllIff(fs: seq<Frame>)
    ensures |ReadBackAll(fs)| <= |fs|
    ensures ReadBackAll(fs) == fs <==> forall f | f in fs :: Survives(f)
  {
    if fs != [] {
      var p, f := fs[..|fs| - 1], fs[|fs| - 1];
      var back := if ReadBack(f) == BLANK then [] else [ReadBack(f)];
      TrimLfIsIdentityIff(f.data);
      assert back == [f] <==> Survives(f);
      hide ReadBack, Survives;
      ReadBackAllIff(p);
      assert fs == p + [f] && ReadBackAll(fs) == ReadBackAll(p) + back;
      SplitEqual(p, [f], ReadBackAll(p), back);
    }
  }

  /** Writing frames and scanning them, with any of the three line endings and under any chunking. The
      frames come back exactly as written if and only if each is within the cap, not blank, and has no data
      that starts with LF. When each fits, leading LFs are all that is lost, and frames with nothing else. */
  lemma {:induction false} FrameRoundTrip(lossy: Lossy, fs: seq<Frame>, ending: Bytes, chunks: seq<Bytes>)
    requires forall f | f in fs :: Plain(lossy, f)
    requires IsEnding(ending) && Concat(chunks) == Terminate(StreamLines(fs), ending)
    ensures ReadAll(lossy, chunks) == Ok(fs) <==> forall f | f in fs :: Fits(f) && Survives(f)
    ensures (forall f | f in fs :: Fits(f) && ReadBack(f) != BLANK) ==> ReadAll(lossy, chunks) == Ok(ReadBackAll(fs))
    ensures ReadAll(lossy, chunks).Ok? ==> ReadAll(lossy, chunks) == Ok(ReadBackAll(fs))
  {
    hide ReadAll, StreamLines, ReadBackAll, Terminate, Concat, Plain, Fits;
    ReadBackAllIff(fs);
    forall f | f in fs && Survives(f) ensures ReadBack(f) != BLANK {
      TrimLfIsIdentityIff(f.data);
    }
    hide ReadBack, Survives;
    StreamOutcome(lossy, fs, ending, chunks);
    if forall f | f in fs :: Fits(f) && ReadBack(f) != BLANK {
      StreamScan(lossy, fs);
    }
  }

  // The scan of the written lines decides the outcome of every chunking.
  lemma {:induction false} StreamOutcome(lossy: Lossy, fs: seq<Frame>, ending: Bytes, chunks: seq<Bytes>)
    requires forall f | f in fs :: Plain(lossy, f)
    requires IsEnding(ending) && Concat(chunks) == Terminate(StreamLines(fs), ending)
    ensures ReadAll(lossy, chunks) ==
            if Scan(lossy, EMPTY, StreamLines(fs)).stop.None? then Ok(ReadBackAll(fs))
            else Err(FrameTooLarge(MAX_SSE_FRAME_BYTES))
    ensures Scan(lossy, EMPTY, StreamLines(fs)).stop.None? ==> forall f | f in fs :: Fits(f)
  {
    hide ReadAll, Lines, Terminate, Concat, Scan, Over, Open, Closed, EmitAll, Emit;
    hide StreamLines, ReadBackAll, Plain, Fits;
    StreamLinesBreakFree(lossy, fs);
    LinesOfTerminated(StreamLines(fs), ending);
    ScannerRefinesReference(lossy, chunks);
    StreamReads(lossy, fs);
    OpenIsLast(lossy, StreamLines(fs));
    StopsIffOver(lossy, StreamLines(fs));
    if Scan(lossy, EMPTY, StreamLines(fs)).stop.None? {
      CleanStreamFits(lossy, fs);
    }
  }

  // With no group open, the frames of all groups are those of the closed ones.
  lemma {:induction false} OpenIsLast(lossy: Lossy, h: seq<Bytes>)
    requires Open(h) == []
    ensures EmitAll(lossy, Groups(h)) == EmitAll(lossy, Closed(h))
  {
    EmptyGroup(lossy);
    assert Emit(lossy, []) == [];
    hide Emit, EventOf, DataOf;
    assert EmitAll(lossy, Groups(h)) == EmitAll(lossy, Closed(h)) + Emit(lossy, Open(h));
  }

  // ----- Inputs on which code and standard differ -----

  const X: Text := [120]

  lemma {:induction false} DifferingGroup(lossy: Lossy)
    requires lossy([]) == [] && lossy(X) == X
    ensures var group := [FieldLine(DATA, []), FieldLine(DATA, X)];
            && Emit(lossy, group) == [Frame([], X)]
            && Dispatch(lossy, group) == [Frame([], [LF] + X)]
  {
    var a, b := FieldLine(DATA, []), FieldLine(DATA, X);
    FieldNames();
    SplitFieldLine(DATA, []);
    SplitFieldLine(DATA, X);
    NoFields(lossy);
    hide SplitField, FieldLine, Ascii;
    FieldsSnoc(lossy, [], a);
    FieldsSnoc(lossy, [a], b);
    assert [] + [a] == [a] && [a] + [b] == [a, b];
    hide EventOf, DataValues;
    var vs: seq<Text> := [[], X];
    assert DataValues(lossy, [a, b]) == vs && EventOf(lossy, [a, b]) == [];
    JoinLfCons([], [X]);
    assert [[]] + [X] == vs && JoinLf([X]) == X && [] + [LF] + X == [LF] + X;
    assert vs[1..] == [X] && DropLeadingEmpty([X]) == [X];
  }

  /** An input on which data is not joined as the standard says: the lines `data: `, `data: x` and a blank
      line give the data `x`, where the standard dispatches an LF and `x`. */
  lemma {:induction false} LeadingEmptyLost(lossy: Lossy, chunks: seq<Bytes>)
    requires lossy([]) == [] && lossy(X) == X
    requires Concat(chunks) == Terminate([FieldLine(DATA, []), FieldLine(DATA, X), []], [LF])
    ensures ReadAll(lossy, chunks) == Ok([Frame([], X)])
    ensures DispatchAll(lossy, Closed(Lines(Concat(chunks)))) == [Frame([], [LF] + X)]
  {
    var group := [FieldLine(DATA, []), FieldLine(DATA, X)];
    var lines := group + [[]];
    assert lines == [FieldLine(DATA, []), FieldLine(DATA, X), []];
    FieldLinesPlain();
    DifferingGroup(lossy);
    assert BreakFree([]) && BreakFree(X);
    assert |group[0]| == 6 && |group[1]| == 7 by { assert |DATA| == 4; }
    SmallGroup(group[0], group[1]);
    hide FieldLine, Ascii, BreakFree, Counted, Lines, Terminate, Concat, Scan, ReadAll, Emit, Dispatch, CountedBytes;
    LinesOfTerminated(lines, [LF]);
    ScannerRefinesReference(lossy, chunks);
    OneGroup(lossy, group);
  }

  lemma {:induction false} SmallGroup(a: Bytes, b: Bytes)
    ensures CountedBytes([a, b]) == |a| + |b|
  {
    var none: seq<Bytes> := [];
    assert [a, b][..1] == [a] && [a][..0] == none && CountedBytes(none) == 0;
  }

  // A text of one group within the cap, closed by a blank line.
  lemma {:induction false} OneGroup(lossy: Lossy, group: seq<Bytes>)
    requires (forall l | l in group :: Counted(l)) && CountedBytes(group) <= MAX_SSE_FRAME_BYTES
    ensures forall k: nat :: !Over(lossy, group + [[]], k)
    ensures Open(group + [[]]) == [] && Closed(group + [[]]) == [group]
    ensures EmitAll(lossy, Groups(group + [[]])) == Emit(lossy, group)
    ensures DispatchAll(lossy, Closed(group + [[]])) == Dispatch(lossy, group)
  {
    hide Over, Scan, Open, Closed, Groups, Emit, Dispatch, CountedBytes, Counted, EmitAll, DispatchAll;
    var h := group + [[]];
    GroupScan(lossy, group);
    ScanAppend(lossy, EMPTY, group, [[]]);
    ScanOne(lossy, Reading(lossy, group), []);
    StopsIffOver(lossy, h);
    assert h[..|h| - 1] == group;
    OpenSnoc(h);
    OpenIsLast(lossy, h);
    NothingDispatched(lossy);
    AllSnoc(lossy, [], group);
    assert [] + [group] == [group];
  }

  const A: Text := [97]
  const B: Text := [98]

  // The text of the next lemma, byte by byte.
  lemma BareDataText()
    ensures Ascii("data: a\ndata\ndata:b\n\n") == [100, 97, 116, 97, 58, 32, 97, 10, 100, 97, 116, 97, 10,
                                                    100, 97, 116, 97, 58, 98, 10, 10]
  {
  }

  lemma {:induction false} BareDataLines()
    ensures Terminate([DATA + [58, 32] + A, DATA, DATA + [58] + B, []], [10]) ==
            [100, 97, 116, 97, 58, 32, 97, 10, 100, 97, 116, 97, 10, 100, 97, 116, 97, 58, 98, 10, 10]
  {
    WireBytes();
    hide Ascii;
    var l1, l2, l3, l4: Bytes := DATA + [58, 32] + A, DATA, DATA + [58] + B, [];
    assert l1 == [100, 97, 116, 97, 58, 32, 97] && l3 == [100, 97, 116, 97, 58, 98];
    TerminateCons(l4, [], [10]);
    TerminateCons(l3, [l4], [10]);
    TerminateCons(l2, [l3, l4], [10]);
    TerminateCons(l1, [l2, l3, l4], [10]);
    assert Terminate([], [10]) == [];
    assert [l4] == [l4] + [] && [l3, l4] == [l3] + [l4];
    assert [l2, l3, l4] == [l2] + [l3, l4] && [l1, l2, l3, l4] == [l1] + [l2, l3, l4];
    hide Terminate;
  }

  lemma {:induction false} TerminateCons(l: Bytes, lines: seq<Bytes>, ending: Bytes)
    ensures Terminate([l] + lines, ending) == l + ending + Terminate(lines, ending)
  {
    assert ([l] + lines)[1..] == lines;
  }

  lemma {:induction false} BareDataFields()
    ensures SplitField(DATA + [58, 32] + A) == (DATA, A) && SplitField(DATA) == (DATA, [])
    ensures SplitField(DATA + [58] + B) == (DATA, B)
  {
    FieldNames();
    WireBytes();
    hide SplitField, Ascii;
    SplitAtColon(DATA, A);
    SplitWithoutColon(DATA);
    SplitAtColon(DATA, B);
  }

  lemma {:induction false} ThreeDataLines(lossy: Lossy, l1: Bytes, l2: Bytes, l3: Bytes)
    requires SplitField(l1) == (DATA, A) && SplitField(l2) == (DATA, []) && SplitField(l3) == (DATA, B)
    requires lossy([]) == [] && lossy(A) == A && lossy(B) == B
    ensures EventOf(lossy, [l1, l2, l3]) == [] && DataOf(lossy, [l1, l2, l3]) == [97, 10, 10, 98]
  {
    FieldNames();
    hide SplitField, Ascii, EventOf, DataOf;
    EmptyGroup(lossy);
    GroupSnoc(lossy, [], l1);
    GroupSnoc(lossy, [l1], l2);
    GroupSnoc(lossy, [l1, l2], l3);
    assert [] + [l1] == [l1] && [l1] + [l2] == [l1, l2] && [l1, l2] + [l3] == [l1, l2, l3];
    assert DataOf(lossy, [l1]) == A;
    assert DataOf(lossy, [l1, l2]) == [97, 10];
  }

  lemma {:induction false} BareDataGroup(lossy: Lossy)
    requires lossy([]) == [] && lossy(A) == A && lossy(B) == B
    ensures Emit(lossy, [DATA + [58, 32] + A, DATA, DATA + [58] + B]) == [Frame([], [97, 10, 10, 98])]
  {
    hide SplitField, Ascii, EventOf, DataOf;
    BareDataFields();
    ThreeDataLines(lossy, DATA + [58, 32] + A, DATA, DATA + [58] + B);
  }

  /** A text on which each form of a line matters: a `data` line without a colon is an empty value and keeps
      its LF, and a value without a space after the colon is kept whole. */
  lemma {:induction false} BareDataLineCounts(lossy: Lossy, chunks: seq<Bytes>)
    requires lossy([]) == [] && lossy(A) == A && lossy(B) == B
    requires Concat(chunks) == Ascii("data: a\ndata\ndata:b\n\n")
    ensures ReadAll(lossy, chunks) == Ok([Frame([], [97, 10, 10, 98])])
  {
    var group := [DATA + [58, 32] + A, DATA, DATA + [58] + B];
    var lines := group + [[]];
    assert lines == [DATA + [58, 32] + A, DATA, DATA + [58] + B, []];
    WireBytes();
    BareDataText();
    BareDataLines();
    BareDataGroup(lossy);
    assert AllBreakFree(lines) && forall l | l in group :: Counted(l);
    ThreeLines(group[0], group[1], group[2]);
    hide Ascii, BreakFree, Counted, Lines, Terminate, Concat, Scan, ReadAll, Emit, CountedBytes;
    LinesOfTerminated(lines, [10]);
    ScannerRefinesReference(lossy, chunks);
    OneGroup(lossy, group);
  }

  lemma {:induction false} ThreeLines(a: Bytes, b: Bytes, c: Bytes)
    ensures CountedBytes([a, b, c]) == |a| + |b| + |c|
  {
    SmallGroup(a, b);
    assert [a, b, c][..2] == [a, b];
  }
}
