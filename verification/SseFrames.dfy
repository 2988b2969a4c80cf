// Interpreting lines as frames (src/semantik/sse.rs, consume_line, take_frame, split_field),
// and the reference reading: group the lines at blank lines, then read each group.

module SseFrames {
  import opened Basics

  const MAX_SSE_FRAME_BYTES: nat := 64 * 1024

  const EVENT := Ascii("event")
  const DATA := Ascii("data")

  datatype Frame = Frame(event: Text, data: Text)

  datatype ScanError = FrameTooLarge(limit: nat)

  // The in-progress frame: `cur_event`, `cur_data` and `cur_size`.
  datatype Acc = Acc(event: Text, data: Text, size: nat) {
    predicate HasFrame() {
      event != [] || data != []
    }
  }

  const EMPTY := Acc([], [], 0)

  function ColonAt(line: Bytes): (i: nat)
    ensures i <= |line|
    ensures forall j | 0 <= j < i :: line[j] != COLON
    ensures i < |line| ==> line[i] == COLON
  {
    if line == [] || line[0] == COLON then 0
    else
      var i := 1 + ColonAt(line[1..]);
      assert forall j | 1 <= j < i :: line[j] == line[1..][j - 1];
      i
  }

  /** Field name and value of a line; one space after the colon is dropped. */
  function SplitField(line: Bytes): (Bytes, Bytes) {
    var i := ColonAt(line);
    if i == |line| then (line, [])
    else
      var value := line[i + 1..];
      (line[..i], if value != [] && value[0] == SPACE then value[1..] else value)
  }

  /** A line without a colon is a field name with an empty value. */
  lemma {:induction false} SplitWithoutColon(line: Bytes)
    requires COLON !in line
    ensures SplitField(line) == (line, [])
  {
    assert ColonAt(line) == |line|;
  }

  /** Otherwise the text before the first colon is the name, and the value is the rest without one leading
      space; so a second space, or any other byte, stays. */
  lemma {:induction false} SplitAtColon(name: Bytes, value: Bytes)
    requires COLON !in name
    ensures SplitField(name + [COLON, SPACE] + value) == (name, value)
    ensures value == [] || value[0] != SPACE ==> SplitField(name + [COLON] + value) == (name, value)
  {
    var spaced, plain := name + [COLON, SPACE] + value, name + [COLON] + value;
    ColonAfter(name, [SPACE] + value);
    ColonAfter(name, value);
    assert spaced == name + [COLON] + ([SPACE] + value);
    assert spaced[|name| + 1..] == [SPACE] + value && plain[|name| + 1..] == value;
    assert spaced[..|name|] == name && plain[..|name|] == name;
    assert ([SPACE] + value)[1..] == value;
  }

  lemma {:induction false} ColonAfter(name: Bytes, rest: Bytes)
    requires COLON !in name
    ensures ColonAt(name + [COLON] + rest) == |name|
  {
    var line := name + [COLON] + rest;
    assert line[|name|] == COLON;
    assert forall j | 0 <= j < |name| :: line[j] == name[j] && name[j] != COLON;
  }

  /** The names, separators and line breaks, byte by byte. */
  lemma WireBytes()
    ensures EVENT == [101, 118, 101, 110, 116] && DATA == [100, 97, 116, 97]
    ensures LF == 10 && CR == 13 && COLON == 58 && SPACE == 32
    ensures MAX_SSE_FRAME_BYTES == 65536
  {
  }

  /** The new accumulator, and the frame (if any) or the error that consuming `line` gives. */
  function ConsumeLine(lossy: Lossy, acc: Acc, line: Bytes): (Acc, Result<Option<Frame>, ScanError>) {
    if line == [] then
      if acc.HasFrame() then (EMPTY, Ok(Some(Frame(acc.event, acc.data)))) else (acc, Ok(None))
    else if line[0] == COLON then (acc, Ok(None))
    else
      var counted := acc.(size := acc.size + |line|);
      if counted.size > MAX_SSE_FRAME_BYTES then (counted, Err(FrameTooLarge(MAX_SSE_FRAME_BYTES)))
      else
        var (field, value) := SplitField(line);
        if field == EVENT then (counted.(event := lossy(value)), Ok(None))
        else if field == DATA then
          (counted.(data := (if acc.data == [] then [] else acc.data + [LF]) + lossy(value)), Ok(None))
        else (counted, Ok(None))
  }

  // A line that breaks the cap is counted and changes nothing else.
  lemma {:induction false} FailureKeepsText(lossy: Lossy, acc: Acc, line: Bytes)
    ensures var (acc', r) := ConsumeLine(lossy, acc, line);
            r.Err? ==> acc' == acc.(size := acc.size + |line|)
  {
    hide SplitField;
  }

  // ----- Consuming a list of lines -----

  // `frames` completed before the failing line (if any), whose index is `stop`.
  datatype Fold = Fold(acc: Acc, frames: seq<Frame>, stop: Option<nat>)

  function Scan(lossy: Lossy, acc: Acc, lines: seq<Bytes>): (s: Fold)
    ensures s.stop.Some? ==> s.stop.value < |lines|
    decreases |lines|
  {
    if lines == [] then Fold(acc, [], None)
    else
      var (acc', r) := ConsumeLine(lossy, acc, lines[0]);
      if r.Err? then Fold(acc', [], Some(0))
      else
        var s := Scan(lossy, acc', lines[1..]);
        Fold(s.acc, Opt(r.value) + s.frames, if s.stop.Some? then Some(s.stop.value + 1) else None)
  }

  /** Scanning `a + b` is scanning `a` and, unless that fails, going on with `b`. */
  lemma {:induction false} ScanAppend(lossy: Lossy, acc: Acc, a: seq<Bytes>, b: seq<Bytes>)
    ensures var s := Scan(lossy, acc, a);
            var t := Scan(lossy, s.acc, b);
            Scan(lossy, acc, a + b) ==
              if s.stop.Some? then s
              else Fold(t.acc, s.frames + t.frames, if t.stop.Some? then Some(|a| + t.stop.value) else None)
    decreases |a|
  {
    hide ConsumeLine;
    if a == [] {
      assert a + b == b;
      var t := Scan(lossy, acc, b);
      assert [] + t.frames == t.frames;
    } else {
      var (acc', r) := ConsumeLine(lossy, acc, a[0]);
      assert (a + b)[1..] == a[1..] + b;
      if r.Ok? {
        ScanAppend(lossy, acc', a[1..], b);
        var s1 := Scan(lossy, acc', a[1..]);
        var t := Scan(lossy, s1.acc, b);
        assert Opt(r.value) + (s1.frames + t.frames) == (Opt(r.value) + s1.frames) + t.frames;
      }
    }
  }

  lemma {:induction false} ScanNothing(lossy: Lossy, acc: Acc)
    ensures Scan(lossy, acc, []) == Fold(acc, [], None)
  {
  }

  lemma {:induction false} ScanOne(lossy: Lossy, acc: Acc, l: Bytes)
    ensures var (acc', r) := ConsumeLine(lossy, acc, l);
            Scan(lossy, acc, [l]) == if r.Err? then Fold(acc', [], Some(0)) else Fold(acc', Opt(r.value), None)
  {
    hide ConsumeLine;
    var (acc', r) := ConsumeLine(lossy, acc, l);
    assert Scan(lossy, acc', []) == Fold(acc', [], None);
  }

  /** Scanning one line more. */
  lemma {:induction false} ScanSnoc(lossy: Lossy, acc: Acc, h: seq<Bytes>)
    requires h != [] && Scan(lossy, acc, h[..|h| - 1]).stop.None?
    ensures var s := Scan(lossy, acc, h[..|h| - 1]);
            var (acc', r) := ConsumeLine(lossy, s.acc, h[|h| - 1]);
            Scan(lossy, acc, h) ==
              if r.Err? then Fold(acc', s.frames, Some(|h| - 1)) else Fold(acc', s.frames + Opt(r.value), None)
  {
    hide ConsumeLine, Scan;
    var p, l := h[..|h| - 1], h[|h| - 1];
    ScanAppend(lossy, acc, p, [l]);
    assert h == p + [l];
    ScanOne(lossy, Scan(lossy, acc, p).acc, l);
  }

  /** A prefix of a clean scan is clean. */
  lemma {:induction false} CleanPrefix(lossy: Lossy, h: seq<Bytes>, k: nat)
    requires k <= |h| && Scan(lossy, EMPTY, h).stop.None?
    ensures Scan(lossy, EMPTY, h[..k]).stop.None?
  {
    hide Scan;
    ScanAppend(lossy, EMPTY, h[..k], h[k..]);
    assert h[..k] + h[k..] == h;
  }

  // ----- The reference reading -----

  predicate IsComment(line: Bytes) {
    line != [] && line[0] == COLON
  }

  // Lines whose length counts towards the cap.
  predicate Counted(line: Bytes) {
    line != [] && line[0] != COLON
  }

  /** The non-comment lines between blank lines; the last group is the one still open. */
  function Groups(h: seq<Bytes>): (g: seq<seq<Bytes>>)
    ensures |g| >= 1
  {
    if h == [] then [[]]
    else
      var g, l := Groups(h[..|h| - 1]), h[|h| - 1];
      if l == [] then g + [[]]
      else if IsComment(l) then g
      else g[..|g| - 1] + [g[|g| - 1] + [l]]
  }

  function Open(h: seq<Bytes>): seq<Bytes> {
    var g := Groups(h); g[|g| - 1]
  }

  function Closed(h: seq<Bytes>): seq<seq<Bytes>> {
    var g := Groups(h); g[..|g| - 1]
  }

  /** The value of the last `event` line of a group. */
  function EventOf(lossy: Lossy, group: seq<Bytes>): Text {
    if group == [] then []
    else
      var (field, value) := SplitField(group[|group| - 1]);
      if field == EVENT then lossy(value) else EventOf(lossy, group[..|group| - 1])
  }

  /** The values of the `data` lines of a group, in order. */
  function DataValues(lossy: Lossy, group: seq<Bytes>): seq<Text> {
    if group == [] then []
    else
      var (field, value) := SplitField(group[|group| - 1]);
      DataValues(lossy, group[..|group| - 1]) + if field == DATA then [lossy(value)] else []
  }

  function DropLeadingEmpty(vs: seq<Text>): seq<Text> {
    if vs != [] && vs[0] == [] then DropLeadingEmpty(vs[1..]) else vs
  }

  function JoinLf(vs: seq<Text>): Text {
    if vs == [] then []
    else if |vs| == 1 then vs[0]
    else JoinLf(vs[..|vs| - 1]) + [LF] + vs[|vs| - 1]
  }

  function DataOf(lossy: Lossy, group: seq<Bytes>): Text {
    JoinLf(DropLeadingEmpty(DataValues(lossy, group)))
  }

  /** The frame of a group; a group with neither event nor data has none. */
  function Emit(lossy: Lossy, group: seq<Bytes>): seq<Frame> {
    var f := Frame(EventOf(lossy, group), DataOf(lossy, group));
    if f == Frame([], []) then [] else [f]
  }

  function EmitAll(lossy: Lossy, groups: seq<seq<Bytes>>): seq<Frame> {
    if groups == [] then [] else EmitAll(lossy, groups[..|groups| - 1]) + Emit(lossy, groups[|groups| - 1])
  }

  function CountedBytes(group: seq<Bytes>): nat {
    if group == [] then 0 else CountedBytes(group[..|group| - 1]) + |group[|group| - 1]|
  }

  /** Counted bytes of the groups closed since the last group that had a frame. */
  function SilentBytes(lossy: Lossy, closed: seq<seq<Bytes>>): nat {
    if closed == [] then 0
    else
      var last := closed[|closed| - 1];
      if Emit(lossy, last) != [] then 0 else SilentBytes(lossy, closed[..|closed| - 1]) + CountedBytes(last)
  }

  /** Counted bytes since the last emitted frame. */
  function SinceEmit(lossy: Lossy, h: seq<Bytes>): nat {
    SilentBytes(lossy, Closed(h)) + CountedBytes(Open(h))
  }

  /** Line `k` is the one that breaks the cap when no earlier one did. */
  predicate Over(lossy: Lossy, h: seq<Bytes>, k: nat) {
    k < |h| && Counted(h[k]) && SinceEmit(lossy, h[..k + 1]) > MAX_SSE_FRAME_BYTES
  }

  // ----- The accumulator against the reference reading -----

  lemma {:induction false} DropLeadingEmptySnoc(vs: seq<Text>, v: Text)
    ensures DropLeadingEmpty(vs + [v]) ==
            if DropLeadingEmpty(vs) == [] then (if v == [] then [] else [v]) else DropLeadingEmpty(vs) + [v]
    ensures DropLeadingEmpty(vs) != [] ==> DropLeadingEmpty(vs)[0] != []
  {
    if vs == [] {
      assert vs + [v] == [v];
      assert [v][1..] == [];
    } else if vs[0] == [] {
      assert (vs + [v])[1..] == vs[1..] + [v];
      DropLeadingEmptySnoc(vs[1..], v);
    }
  }

  lemma {:induction false} JoinLfNonEmpty(vs: seq<Text>)
    requires vs != [] && vs[0] != []
    ensures JoinLf(vs) != []
  {
    if |vs| > 1 {
      JoinLfNonEmpty(vs[..|vs| - 1]);
    }
  }

  /** Appending a data value as `consume_line` does: an LF first, unless nothing has been kept yet. */
  lemma {:induction false} JoinSnoc(vs: seq<Text>, v: Text)
    ensures var old' := JoinLf(DropLeadingEmpty(vs));
            JoinLf(DropLeadingEmpty(vs + [v])) == (if old' == [] then [] else old' + [LF]) + v
  {
    DropLeadingEmptySnoc(vs, v);
    var kept := DropLeadingEmpty(vs);
    if kept != [] {
      JoinLfNonEmpty(kept);
      assert (kept + [v])[..|kept|] == kept;
    }
  }

  lemma {:induction false} OpenSnoc(h: seq<Bytes>)
    requires h != []
    ensures var p, l := h[..|h| - 1], h[|h| - 1];
            && (l == [] ==> Open(h) == [] && Closed(h) == Closed(p) + [Open(p)])
            && (IsComment(l) ==> Open(h) == Open(p) && Closed(h) == Closed(p))
            && (Counted(l) ==> Open(h) == Open(p) + [l] && Closed(h) == Closed(p))
  {
    var g := Groups(h[..|h| - 1]);
    assert g == g[..|g| - 1] + [g[|g| - 1]];
  }

  /** What the accumulator of `h` must be. */
  function Reading(lossy: Lossy, h: seq<Bytes>): Acc {
    Acc(EventOf(lossy, Open(h)), DataOf(lossy, Open(h)), SinceEmit(lossy, h))
  }

  // `acc'` and `r` are what consuming the last line of `h` must give.
  predicate ReadsOn(lossy: Lossy, h: seq<Bytes>, acc': Acc, r: Result<Option<Frame>, ScanError>)
    requires h != []
  {
    && acc'.size == SinceEmit(lossy, h)
    && (Counted(h[|h| - 1]) || SinceEmit(lossy, h) <= SinceEmit(lossy, h[..|h| - 1]))
    && (r.Err? <==> Counted(h[|h| - 1]) && SinceEmit(lossy, h) > MAX_SSE_FRAME_BYTES)
    && (r.Ok? ==> acc' == Reading(lossy, h)
                  && EmitAll(lossy, Closed(h[..|h| - 1])) + Opt(r.value) == EmitAll(lossy, Closed(h)))
  }

  lemma {:induction false} ReadingSnoc(lossy: Lossy, h: seq<Bytes>)
    requires h != []
    ensures var (acc', r) := ConsumeLine(lossy, Reading(lossy, h[..|h| - 1]), h[|h| - 1]);
            ReadsOn(lossy, h, acc', r)
  {
    var l := h[|h| - 1];
    if l == [] {
      BlankSnoc(lossy, h);
    } else if Counted(l) {
      CountedSnoc(lossy, h);
    } else {
      CommentSnoc(lossy, h);
    }
  }

  lemma {:induction false} BlankSnoc(lossy: Lossy, h: seq<Bytes>)
    requires h != [] && h[|h| - 1] == []
    ensures var (acc', r) := ConsumeLine(lossy, Reading(lossy, h[..|h| - 1]), []);
            ReadsOn(lossy, h, acc', r)
  {
    hide EventOf, DataOf, EmitAll, SilentBytes, CountedBytes, Closed, Open, Groups;
    var p := h[..|h| - 1];
    OpenSnoc(h);
    EmptyGroup(lossy);
    BlankReading(lossy, Closed(p), Open(p));
  }

  lemma {:induction false} EmptyGroup(lossy: Lossy)
    ensures EventOf(lossy, []) == [] && DataOf(lossy, []) == [] && CountedBytes([]) == 0
    ensures Open([]) == [] && Closed([]) == []
  {
    assert DataValues(lossy, []) == [];
  }

  lemma {:induction false} CommentSnoc(lossy: Lossy, h: seq<Bytes>)
    requires h != [] && IsComment(h[|h| - 1])
    ensures var (acc', r) := ConsumeLine(lossy, Reading(lossy, h[..|h| - 1]), h[|h| - 1]);
            ReadsOn(lossy, h, acc', r)
  {
    hide EventOf, DataOf, EmitAll, SilentBytes, CountedBytes, Closed, Open, Groups;
    OpenSnoc(h);
  }

  lemma {:induction false} CountedSnoc(lossy: Lossy, h: seq<Bytes>)
    requires h != [] && Counted(h[|h| - 1])
    ensures var (acc', r) := ConsumeLine(lossy, Reading(lossy, h[..|h| - 1]), h[|h| - 1]);
            ReadsOn(lossy, h, acc', r)
  {
    hide EventOf, DataOf, EmitAll, SilentBytes, CountedBytes, Closed, Open, Groups, SplitField;
    OpenSnoc(h);
    GroupSnoc(lossy, Open(h[..|h| - 1]), h[|h| - 1]);
  }

  lemma {:induction false} BlankReading(lossy: Lossy, closed: seq<seq<Bytes>>, group: seq<Bytes>)
    ensures EmitAll(lossy, closed + [group]) == EmitAll(lossy, closed) + Emit(lossy, group)
    ensures SilentBytes(lossy, closed + [group]) ==
            if Emit(lossy, group) != [] then 0 else SilentBytes(lossy, closed) + CountedBytes(group)
  {
    hide Emit, CountedBytes;
    assert (closed + [group])[..|closed|] == closed;
  }

  lemma {:induction false} NothingRead(lossy: Lossy)
    ensures Scan(lossy, EMPTY, []) == Fold(Reading(lossy, []), EmitAll(lossy, Closed([])), None)
    ensures SinceEmit(lossy, []) == 0
  {
    EmptyGroup(lossy);
    hide EventOf, DataOf, Open, Closed;
  }

  /** After any lines read without error, the accumulator is the reading of the open group and the
      frames are those of the closed groups. */
  lemma {:induction false} Accumulates(lossy: Lossy, h: seq<Bytes>)
    requires Scan(lossy, EMPTY, h).stop.None?
    ensures Scan(lossy, EMPTY, h).acc == Reading(lossy, h)
    ensures Scan(lossy, EMPTY, h).frames == EmitAll(lossy, Closed(h))
    ensures SinceEmit(lossy, h) <= MAX_SSE_FRAME_BYTES
  {
    hide ConsumeLine, Scan, SinceEmit, EmitAll, Closed, Reading;
    if h == [] {
      NothingRead(lossy);
    } else {
      CleanPrefix(lossy, h, |h| - 1);
      Accumulates(lossy, h[..|h| - 1]);
      ScanSnoc(lossy, EMPTY, h);
      ReadingSnoc(lossy, h);
      var s := Scan(lossy, EMPTY, h[..|h| - 1]);
      assert s.acc == Reading(lossy, h[..|h| - 1]);
      var (acc', r) := ConsumeLine(lossy, s.acc, h[|h| - 1]);
      assert ReadsOn(lossy, h, acc', r);
      assert r.Ok?;
    }
  }

  lemma {:induction false} FieldsSnoc(lossy: Lossy, group: seq<Bytes>, l: Bytes)
    ensures var (field, value) := SplitField(l);
            && EventOf(lossy, group + [l]) == (if field == EVENT then lossy(value) else EventOf(lossy, group))
            && DataValues(lossy, group + [l]) ==
               DataValues(lossy, group) + (if field == DATA then [lossy(value)] else [])
  {
    hide SplitField;
    assert (group + [l])[..|group|] == group;
  }

  lemma {:induction false} GroupSnoc(lossy: Lossy, group: seq<Bytes>, l: Bytes)
    ensures var (field, value) := SplitField(l);
            && EventOf(lossy, group + [l]) == (if field == EVENT then lossy(value) else EventOf(lossy, group))
            && DataOf(lossy, group + [l]) ==
               (if field == DATA then
                  (if DataOf(lossy, group) == [] then [] else DataOf(lossy, group) + [LF]) + lossy(value)
                else DataOf(lossy, group))
            && CountedBytes(group + [l]) == CountedBytes(group) + |l|
  {
    var (field, value) := SplitField(l);
    assert (group + [l])[..|group|] == group;
    if field == DATA {
      JoinSnoc(DataValues(lossy, group), lossy(value));
    } else {
      assert DataValues(lossy, group) + [] == DataValues(lossy, group);
    }
  }

  predicate FirstOver(lossy: Lossy, h: seq<Bytes>, k: nat) {
    Over(lossy, h, k) && forall j: nat | j < k :: !Over(lossy, h, j)
  }

  // Whether line `k` is over depends only on the lines up to it.
  lemma {:induction false} OverPrefix(lossy: Lossy, h: seq<Bytes>, n: nat, k: nat)
    requires k < n <= |h|
    ensures Over(lossy, h, k) <==> Over(lossy, h[..n], k)
  {
    assert h[..n][..k + 1] == h[..k + 1];
  }

  lemma {:induction false} LastLineOver(lossy: Lossy, h: seq<Bytes>)
    requires h != [] && Scan(lossy, EMPTY, h[..|h| - 1]).stop.None?
    ensures Scan(lossy, EMPTY, h).stop == if Over(lossy, h, |h| - 1) then Some(|h| - 1) else None
  {
    hide Scan, ConsumeLine, SinceEmit, EmitAll;
    Accumulates(lossy, h[..|h| - 1]);
    ScanSnoc(lossy, EMPTY, h);
    ReadingSnoc(lossy, h);
    assert h[..|h| - 1 + 1] == h;
  }

  /** The scan stops exactly at the first over-long line of the reference reading. */
  lemma {:induction false} StopsAtFirstOver(lossy: Lossy, h: seq<Bytes>)
    ensures var stop := Scan(lossy, EMPTY, h).stop;
            if stop.Some? then FirstOver(lossy, h, stop.value) else forall k: nat :: !Over(lossy, h, k)
  {
    hide SinceEmit, ConsumeLine;
    if h != [] {
      var n := |h| - 1;
      var p := h[..n];
      StopsAtFirstOver(lossy, p);
      forall k: nat | k < n ensures Over(lossy, h, k) <==> Over(lossy, p, k) {
        OverPrefix(lossy, h, n, k);
      }
      if Scan(lossy, EMPTY, p).stop.None? {
        LastLineOver(lossy, h);
      } else {
        ScanAppend(lossy, EMPTY, p, [h[n]]);
        assert h == p + [h[n]];
      }
    }
  }

  lemma {:induction false} StopsIffOver(lossy: Lossy, h: seq<Bytes>)
    ensures Scan(lossy, EMPTY, h).stop.Some? <==> exists k: nat :: Over(lossy, h, k)
    ensures forall k: nat :: FirstOver(lossy, h, k) ==> Scan(lossy, EMPTY, h).stop == Some(k)
  {
    hide Over, Scan;
    StopsAtFirstOver(lossy, h);
    var stop := Scan(lossy, EMPTY, h).stop;
    if stop.Some? {
      assert Over(lossy, h, stop.value);
      forall k: nat | FirstOver(lossy, h, k) ensures k == stop.value {
        assert Over(lossy, h, k);
      }
    }
  }
}
