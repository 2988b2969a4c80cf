// Where the frames handed out differ from what is written about them: how long their data can get, how
// the data values are joined, and which frames section 9.2.6 of the WHATWG HTML standard dispatches.

module SseConformance {
  import opened Basics
  import opened SseLines
  import opened SseFrames
  import opened SseScanner
  import opened SseChunking

  // ----- Joining data values -----

  lemma {:induction false} JoinLfCons(v: Text, vs: seq<Text>)
    ensures JoinLf([v] + vs) == if vs == [] then v else v + [LF] + JoinLf(vs)
  {
    hide JoinLf;
    if vs == [] {
      JoinLfSnoc([], v);
      assert [v] + vs == [] + [v];
    } else {
      var p, last := vs[..|vs| - 1], vs[|vs| - 1];
      JoinLfCons(v, p);
      JoinLfSnoc([v] + p, last);
      JoinLfSnoc(p, last);
      assert vs == p + [last];
      assert [v] + vs == ([v] + p) + [last];
      Regroup(v + [LF], JoinLf(p), [LF], last);
    }
  }

  lemma {:induction false} Regroup(a: Text, b: Text, c: Text, d: Text)
    ensures (a + b) + c + d == a + (b + c + d)
  {
  }

  lemma {:induction false} JoinLfSnoc(vs: seq<Text>, v: Text)
    ensures JoinLf(vs + [v]) == if vs == [] then v else JoinLf(vs) + [LF] + v
  {
    assert (vs + [v])[..|vs|] == vs;
  }

  function TotalLength(vs: seq<Text>): nat {
    if vs == [] then 0 else TotalLength(vs[..|vs| - 1]) + |vs[|vs| - 1]|
  }

  /** The lengths of the values and one LF between each two. */
  function JoinedLength(vs: seq<Text>): nat {
    if vs == [] then 0 else TotalLength(vs) + |vs| - 1
  }

  lemma {:induction false} JoinLfLength(vs: seq<Text>)
    ensures |JoinLf(vs)| == JoinedLength(vs)
  {
    if |vs| > 1 {
      JoinLfLength(vs[..|vs| - 1]);
    } else if |vs| == 1 {
      assert vs[..0] == [];
      assert TotalLength([]) == 0;
    }
  }

  lemma {:induction false} DroppingShortens(vs: seq<Text>)
    ensures |JoinLf(DropLeadingEmpty(vs))| <= |JoinLf(vs)|
    ensures |vs| > 1 && vs[0] == [] ==> |JoinLf(DropLeadingEmpty(vs))| < |JoinLf(vs)|
  {
    if vs != [] && vs[0] == [] {
      DroppingShortens(vs[1..]);
      assert vs == [vs[0]] + vs[1..];
      JoinLfCons(vs[0], vs[1..]);
      hide JoinLf;
    }
  }

  lemma {:induction false} JoinedIff(vs: seq<Text>)
    ensures JoinLf(DropLeadingEmpty(vs)) == JoinLf(vs) <==> |vs| <= 1 || vs[0] != []
  {
    DroppingShortens(vs);
    if |vs| == 1 && vs[0] == [] {
      assert vs[1..] == [];
      assert DropLeadingEmpty(vs[1..]) == [];
    }
  }

  /** The SSE specification joins all the data values of a group with LF. The code does the same exactly
      when there is at most one of them or the first is not empty. */
  lemma {:induction false} DataJoinedIff(lossy: Lossy, group: seq<Bytes>)
    ensures DataOf(lossy, group) == JoinLf(DataValues(lossy, group)) <==>
            |DataValues(lossy, group)| <= 1 || DataValues(lossy, group)[0] != []
  {
    hide DataValues, JoinLf, DropLeadingEmpty;
    JoinedIff(DataValues(lossy, group));
  }

  // ----- How long the data of a frame can get -----

  /** The length of the data a group's frame carries: of its values without the leading empty ones. */
  function DataLength(lossy: Lossy, group: seq<Bytes>): nat {
    JoinedLength(DropLeadingEmpty(DataValues(lossy, group)))
  }

  lemma {:induction false} DataLengthIs(lossy: Lossy, group: seq<Bytes>)
    ensures |DataOf(lossy, group)| == DataLength(lossy, group)
  {
    JoinLfLength(DropLeadingEmpty(DataValues(lossy, group)));
  }

  lemma {:induction false} GroupsWithinIff(lossy: Lossy, groups: seq<seq<Bytes>>, limit: nat)
    ensures (forall f | f in EmitAll(lossy, groups) :: |f.data| <= limit)
            <==> (forall g | g in groups :: DataLength(lossy, g) <= limit)
  {
    if groups != [] {
      hide DataOf, EventOf, DataLength;
      var p, g := groups[..|groups| - 1], groups[|groups| - 1];
      GroupsWithinIff(lossy, p, limit);
      DataLengthIs(lossy, g);
      assert groups == p + [g];
      assert EmitAll(lossy, groups) == EmitAll(lossy, p) + Emit(lossy, g);
      hide EmitAll;
    }
  }

  /** The cap counts received bytes, and the data of a frame is decoded text. For any run that does not
      fail, every frame keeps its data within the cap exactly when in every group of the text the decoded
      lengths of the kept data values, with one LF between each, sum to at most the cap. */
  lemma {:induction false} DataWithinCapIff(lossy: Lossy, chunks: seq<Bytes>)
    requires ReadAll(lossy, chunks).Ok?
    ensures (forall f | f in ReadAll(lossy, chunks).value :: |f.data| <= MAX_SSE_FRAME_BYTES)
            <==> (forall g | g in Groups(Lines(Concat(chunks))) :: DataLength(lossy, g) <= MAX_SSE_FRAME_BYTES)
  {
    ScannerRefinesReference(lossy, chunks);
    hide ReadAll, Concat, Lines, Groups, EmitAll, DataLength, Over;
    GroupsWithinIff(lossy, Groups(Lines(Concat(chunks))), MAX_SSE_FRAME_BYTES);
  }

  /** `n` bytes that are never valid UTF-8. */
  function Invalid(n: nat): Bytes {
    seq(n, _ => 255)
  }

  const DATA_COLON := Ascii("data:")

  lemma InvalidLine(n: nat)
    ensures SplitField(DATA_COLON + Invalid(n)) == (DATA, Invalid(n))
    ensures BreakFree(DATA_COLON + Invalid(n)) && Counted(DATA_COLON + Invalid(n))
  {
    var line := DATA_COLON + Invalid(n);
    assert |DATA_COLON| == 5 && |DATA| == 4;
    assert forall i | 0 <= i < 4 :: DATA_COLON[i] == DATA[i] && DATA[i] != COLON;
    assert line[4] == COLON && ColonAt(line) == 4;
    assert line[..4] == DATA;
    assert line[5..] == Invalid(n);
  }

  lemma {:induction false} InvalidScan(lossy: Lossy, n: nat)
    ensures var data := lossy(Invalid(n));
            var s := Scan(lossy, EMPTY, [DATA_COLON + Invalid(n), []]);
            if n + 5 > MAX_SSE_FRAME_BYTES then s.stop.Some?
            else if data == [] then s == Fold(Acc([], [], n + 5), [], None)
            else s == Fold(EMPTY, [Frame([], data)], None)
  {
    var line, data := DATA_COLON + Invalid(n), lossy(Invalid(n));
    InvalidLine(n);
    assert |line| == n + 5 && EVENT != DATA by { assert |EVENT| == 5 && |DATA| == 4 && |DATA_COLON| == 5; }
    hide Scan, SplitField, Ascii, Invalid;
    var acc := Acc([], data, n + 5);
    assert [] + data == data;
    assert [line] + [[]] == [line, []];
    ScanAppend(lossy, EMPTY, [line], [[]]);
    ScanOne(lossy, EMPTY, line);
    if n + 5 <= MAX_SSE_FRAME_BYTES {
      assert ConsumeLine(lossy, EMPTY, line) == (acc, Ok(None));
      ScanOne(lossy, acc, []);
    } else {
      assert ConsumeLine(lossy, EMPTY, line).1.Err?;
    }
  }

  lemma InvalidText(n: nat)
    ensures Lines(Terminate([DATA_COLON + Invalid(n), []], [LF])) == [DATA_COLON + Invalid(n), []]
  {
    var lines := [DATA_COLON + Invalid(n), []];
    InvalidLine(n);
    assert BreakFree([]);
    hide Invalid, Ascii, BreakFree, Lines, Terminate;
    LinesOfTerminated(lines, [LF]);
  }

  /** One data line of `n` invalid bytes, each decoded to the three bytes of U+FFFD: the run fails exactly
      when the line is over the cap, and hands out data over the cap whenever 21846 <= n <= 65531. */
  lemma {:induction false} InvalidBytesOutgrowCap(lossy: Lossy, n: nat, chunks: seq<Bytes>)
    requires |lossy(Invalid(n))| == 3 * n
    requires Concat(chunks) == Terminate([DATA_COLON + Invalid(n), []], [LF])
    ensures ReadAll(lossy, chunks).Err? <==> n > 65531
    ensures 1 <= n <= 65531 ==> ReadAll(lossy, chunks) == Ok([Frame([], lossy(Invalid(n)))])
    ensures 21846 <= n <= 65531 ==> |lossy(Invalid(n))| > MAX_SSE_FRAME_BYTES
  {
    hide Scan, OneShot, ReadAll, Lines, Terminate, Concat, Invalid, Ascii;
    InvalidText(n);
    InvalidScan(lossy, n);
    ScannerRefinesReference(lossy, chunks);
    ScanIsOneShot(lossy, Concat(chunks));
    if 1 <= n <= 65531 {
      var one := [Frame([], lossy(Invalid(n)))];
      assert !EMPTY.HasFrame() && one + [] == one;
    }
  }

  // ----- Section 9.2.6 of the WHATWG HTML standard -----

  /** What section 9.2.6 dispatches for a group that a blank line closed: nothing without a data line,
      otherwise all data values joined, empty ones included. */
  function Dispatch(lossy: Lossy, group: seq<Bytes>): seq<Frame> {
    var vs := DataValues(lossy, group);
    if vs == [] then [] else [Frame(EventOf(lossy, group), JoinLf(vs))]
  }

  function DispatchAll(lossy: Lossy, groups: seq<seq<Bytes>>): seq<Frame> {
    if groups == [] then [] else DispatchAll(lossy, groups[..|groups| - 1]) + Dispatch(lossy, groups[|groups| - 1])
  }

  /** A group on which code and standard agree: no event without data, no empty value before others, and
      not a lone empty value without an event. */
  predicate Conforming(lossy: Lossy, group: seq<Bytes>) {
    var vs, e := DataValues(lossy, group), EventOf(lossy, group);
    if vs == [] then e == []
    else if |vs| == 1 then e != [] || vs[0] != []
    else vs[0] != []
  }

  predicate AllEmpty(vs: seq<Text>) {
    forall i | 0 <= i < |vs| :: vs[i] == []
  }

  lemma {:induction false} DroppedToNothingIff(vs: seq<Text>)
    ensures JoinLf(DropLeadingEmpty(vs)) == [] <==> AllEmpty(vs)
  {
    if vs == [] {
      NothingJoined();
    } else if vs[0] == [] {
      hide JoinLf;
      DroppedToNothingIff(vs[1..]);
      assert AllEmpty(vs) <==> AllEmpty(vs[1..]) by {
        assert forall i | 1 <= i < |vs| :: vs[i] == vs[1..][i - 1];
      }
    } else {
      JoinLfNonEmpty(vs);
    }
  }

  /** Data is empty exactly when every data value is. */
  lemma {:induction false} DataEmptyIff(lossy: Lossy, group: seq<Bytes>)
    ensures DataOf(lossy, group) == [] <==> AllEmpty(DataValues(lossy, group))
  {
    hide DataValues, JoinLf, DropLeadingEmpty, AllEmpty;
    DroppedToNothingIff(DataValues(lossy, group));
  }

  // No frame of the scanner is blank or has data that starts with LF, if decoding starts no value so.
  predicate Ordinary(f: Frame) {
    f != Frame([], []) && (f.data == [] || f.data[0] != LF)
  }

  predicate AllOrdinary(fs: seq<Frame>) {
    forall f | f in fs :: Ordinary(f)
  }

  /** One group: code and standard agree exactly on conforming groups, and where only the standard
      dispatches, its frame is not one the scanner could hand out. */
  lemma {:induction false} ConformingIff(lossy: Lossy, group: seq<Bytes>)
    ensures Emit(lossy, group) == Dispatch(lossy, group) <==> Conforming(lossy, group)
    ensures |Emit(lossy, group)| < |Dispatch(lossy, group)| ==> !AllOrdinary(Dispatch(lossy, group))
  {
    hide DataValues, EventOf, DropLeadingEmpty, TotalLength;
    var vs := DataValues(lossy, group);
    DataJoinedIff(lossy, group);
    DataEmptyIff(lossy, group);
    LoneOrLonger(vs);
    hide JoinLf, DataOf;
    if vs != [] {
      var f := Frame(EventOf(lossy, group), JoinLf(vs));
      assert Dispatch(lossy, group) == [f];
      if Emit(lossy, group) == [] {
        AllEmptyJoin(vs);
        assert !Ordinary(f) && f in Dispatch(lossy, group);
      }
    } else {
      NothingJoined();
    }
  }

  lemma NothingJoined()
    ensures JoinLf([]) == []
  {
  }

  lemma {:induction false} LoneOrLonger(vs: seq<Text>)
    ensures |vs| == 1 ==> JoinLf(vs) == vs[0]
    ensures |vs| > 1 ==> JoinLf(vs) != []
  {
  }

  lemma {:induction false} AllEmptyJoin(vs: seq<Text>)
    requires vs != [] && AllEmpty(vs)
    ensures JoinLf(vs) == [] || JoinLf(vs)[0] == LF
  {
    if |vs| > 1 {
      assert vs == [vs[0]] + vs[1..];
      JoinLfCons(vs[0], vs[1..]);
      hide JoinLf;
    }
  }

  lemma {:induction false} ConformingAgree(lossy: Lossy, groups: seq<seq<Bytes>>)
    requires forall g | g in groups :: Conforming(lossy, g)
    ensures EmitAll(lossy, groups) == DispatchAll(lossy, groups)
  {
    if groups != [] {
      hide Emit, Dispatch, Conforming;
      var p, g := groups[..|groups| - 1], groups[|groups| - 1];
      assert g in groups;
      ConformingAgree(lossy, p);
      ConformingIff(lossy, g);
    }
  }

  /** Against a dispatch that could come from the scanner, the code never gives fewer frames, and gives
      the same ones only if every group conforms. */
  lemma {:induction false} AgreeingConform(lossy: Lossy, groups: seq<seq<Bytes>>)
    requires AllOrdinary(DispatchAll(lossy, groups))
    ensures |EmitAll(lossy, groups)| >= |DispatchAll(lossy, groups)|
    ensures EmitAll(lossy, groups) == DispatchAll(lossy, groups) ==> forall g | g in groups :: Conforming(lossy, g)
  {
    hide EmitAll, DispatchAll, Emit, Dispatch, Conforming, AllOrdinary, Ordinary;
    if groups == [] {
      NothingDispatched(lossy);
    } else {
      var p, g := groups[..|groups| - 1], groups[|groups| - 1];
      assert groups == p + [g];
      AllSnoc(lossy, p, g);
      OrdinaryParts(DispatchAll(lossy, p), Dispatch(lossy, g));
      AgreeingConform(lossy, p);
      ConformingIff(lossy, g);
      SplitEqual(EmitAll(lossy, p), Emit(lossy, g), DispatchAll(lossy, p), Dispatch(lossy, g));
    }
  }

  lemma {:induction false} NothingDispatched(lossy: Lossy)
    ensures EmitAll(lossy, []) == [] && DispatchAll(lossy, []) == []
  {
  }

  lemma {:induction false} AllSnoc(lossy: Lossy, p: seq<seq<Bytes>>, g: seq<Bytes>)
    ensures EmitAll(lossy, p + [g]) == EmitAll(lossy, p) + Emit(lossy, g)
    ensures DispatchAll(lossy, p + [g]) == DispatchAll(lossy, p) + Dispatch(lossy, g)
  {
    hide Emit, Dispatch;
    assert (p + [g])[..|p|] == p;
  }

  lemma {:induction false} OrdinaryParts(a: seq<Frame>, b: seq<Frame>)
    ensures AllOrdinary(a + b) <==> AllOrdinary(a) && AllOrdinary(b)
  {
    hide Ordinary;
    assert forall f :: f in a + b <==> f in a || f in b;
  }

  lemma {:induction false} SplitEqual(a: seq<Frame>, b: seq<Frame>, c: seq<Frame>, d: seq<Frame>)
    requires |a| >= |c| && |b| >= |d|
    ensures |a + b| >= |c + d|
    ensures a + b == c + d ==> a == c && b == d
  {
    if a + b == c + d {
      assert |a + b| == |c + d| && |a| == |c|;
      assert (a + b)[..|a|] == a && (c + d)[..|c|] == c;
      assert (a + b)[|a|..] == b && (c + d)[|c|..] == d;
    }
  }

  // ----- Frames of break-free lines are ordinary -----

  /** Decoding a value without line breaks does not start it with LF. */
  ghost predicate Tame(lossy: Lossy) {
    forall v: Bytes | BreakFree(v) :: lossy(v) == [] || lossy(v)[0] != LF
  }

  lemma {:induction false} ValueBreakFree(line: Bytes)
    requires BreakFree(line)
    ensures BreakFree(SplitField(line).1)
  {
  }

  lemma {:induction false} TameValues(lossy: Lossy, group: seq<Bytes>)
    requires Tame(lossy) && AllBreakFree(group)
    ensures forall v | v in DataValues(lossy, group) :: v == [] || v[0] != LF
  {
    if group != [] {
      var p, l := group[..|group| - 1], group[|group| - 1];
      ValueBreakFree(l);
      assert AllBreakFree(p) by { hide BreakFree; }
      hide SplitField, BreakFree, Ascii;
      TameValues(lossy, p);
    }
  }

  lemma {:induction false} KeptHead(vs: seq<Text>)
    ensures DropLeadingEmpty(vs) != [] ==> DropLeadingEmpty(vs)[0] in vs && DropLeadingEmpty(vs)[0] != []
  {
    if vs != [] && vs[0] == [] {
      KeptHead(vs[1..]);
    }
  }

  lemma {:induction false} EmitOrdinary(lossy: Lossy, group: seq<Bytes>)
    requires Tame(lossy) && AllBreakFree(group)
    ensures AllOrdinary(Emit(lossy, group))
  {
    hide DataValues, EventOf, Tame, AllBreakFree;
    var vs := DataValues(lossy, group);
    TameValues(lossy, group);
    KeptHead(vs);
    var kept := DropLeadingEmpty(vs);
    if kept != [] {
      JoinLfCons(kept[0], kept[1..]);
      assert kept == [kept[0]] + kept[1..];
      hide JoinLf, DropLeadingEmpty;
      assert DataOf(lossy, group)[0] == kept[0][0];
    } else {
      NothingJoined();
      hide JoinLf, DropLeadingEmpty;
    }
  }

  lemma {:induction false} EmitAllOrdinary(lossy: Lossy, groups: seq<seq<Bytes>>)
    requires Tame(lossy) && forall g | g in groups :: AllBreakFree(g)
    ensures AllOrdinary(EmitAll(lossy, groups))
  {
    if groups != [] {
      hide Tame, AllBreakFree, Emit, Ordinary;
      var p, g := groups[..|groups| - 1], groups[|groups| - 1];
      assert g in groups;
      EmitAllOrdinary(lossy, p);
      EmitOrdinary(lossy, g);
    }
  }

  lemma {:induction false} NormalizeNoCr(d: Bytes)
    ensures forall i | 0 <= i < |Normalize(d)| :: Normalize(d)[i] != CR
    decreases |d|
  {
    if d != [] {
      NormalizeNoCr(if d[0] == CR && |d| > 1 && d[1] == LF then d[2..] else d[1..]);
    }
  }

  lemma {:induction false} TextLinesBreakFree(d: Bytes)
    requires forall i | 0 <= i < |d| :: d[i] != CR
    ensures AllBreakFree(TextLines(d))
  {
    if d != [] {
      TextLinesBreakFree(d[1..]);
    }
  }

  lemma {:induction false} GroupsAreLines(h: seq<Bytes>)
    requires AllBreakFree(h)
    ensures forall g | g in Groups(h) :: AllBreakFree(g)
  {
    if h != [] {
      var p, l := h[..|h| - 1], h[|h| - 1];
      assert AllBreakFree(p) && BreakFree(l) by { hide BreakFree; }
      hide BreakFree;
      GroupsAreLines(p);
      var g := Groups(p);
      assert g[|g| - 1] in g;
    }
  }

  // ----- Whole texts -----

  /** For every text and chunking: the scanner gives exactly the frames section 9.2.6 dispatches if and
      only if no line breaks the cap, every closed group conforms, and the group left open at the end of
      input has no event and no non-empty data (the standard discards it, the scanner flushes it). */
  lemma {:induction false} ConformsIff(lossy: Lossy, chunks: seq<Bytes>)
    requires Tame(lossy)
    ensures var lines := Lines(Concat(chunks));
            ReadAll(lossy, chunks) == Ok(DispatchAll(lossy, Closed(lines))) <==>
              && (forall k: nat :: !Over(lossy, lines, k))
              && (forall g | g in Closed(lines) :: Conforming(lossy, g))
              && EventOf(lossy, Open(lines)) == []
              && AllEmpty(DataValues(lossy, Open(lines)))
  {
    var bytes := Concat(chunks);
    var lines := Lines(bytes);
    ScannerRefinesReference(lossy, chunks);
    NormalizeNoCr(bytes);
    TextLinesBreakFree(Normalize(bytes));
    GroupsAreLines(lines);
    DataEmptyIff(lossy, Open(lines));
    hide ReadAll, Concat, Lines, Over, Conforming, DataValues, EventOf, DataOf;
    ReadingConformsIff(lossy, lines);
  }

  lemma {:induction false} ReadingConformsIff(lossy: Lossy, lines: seq<Bytes>)
    requires Tame(lossy) && forall g | g in Groups(lines) :: AllBreakFree(g)
    ensures EmitAll(lossy, Groups(lines)) == DispatchAll(lossy, Closed(lines)) <==>
            && (forall g | g in Closed(lines) :: Conforming(lossy, g))
            && Emit(lossy, Open(lines)) == []
  {
    hide Tame, AllBreakFree, Conforming, Emit, Ordinary;
    var closed, open := Closed(lines), Open(lines);
    assert Groups(lines) == closed + [open];
    EmitAllOrdinary(lossy, Groups(lines));
    assert EmitAll(lossy, closed + [open]) == EmitAll(lossy, closed) + Emit(lossy, open) by {
      assert (closed + [open])[..|closed|] == closed;
    }
    hide Groups, Open, Closed, EmitAll, DispatchAll;
    if forall g | g in closed :: Conforming(lossy, g) {
      ConformingAgree(lossy, closed);
    }
    if EmitAll(lossy, closed) + Emit(lossy, open) == DispatchAll(lossy, closed) {
      AgreeingConform(lossy, closed);
      assert |Emit(lossy, open)| == 0;
    }
  }
}
