// Cutting a byte buffer into lines (src/semantik/sse.rs, next_line and strip_trailing_cr),
// and the one-shot line splitter it must agree with.

module SseLines {
  import opened Basics

  predicate IsBreak(b: byte) {
    b == LF || b == CR
  }

  predicate BreakFree(s: Bytes) {
    forall i | 0 <= i < |s| :: !IsBreak(s[i])
  }

  /** The first CR or LF of `data`, or its length. */
  function FirstBreak(data: Bytes): (i: nat)
    ensures i <= |data|
    ensures BreakFree(data[..i])
    ensures i < |data| ==> IsBreak(data[i])
  {
    if data == [] || IsBreak(data[0]) then 0
    else
      var i := 1 + FirstBreak(data[1..]);
      assert data[..i] == [data[0]] + data[1..][..i - 1];
      i
  }

  lemma {:induction false} FirstBreakIs(data: Bytes, i: nat)
    requires i < |data| && BreakFree(data[..i]) && IsBreak(data[i])
    ensures FirstBreak(data) == i
  {
    var j := FirstBreak(data);
    forall k | 0 <= k < i ensures !IsBreak(data[k]) { assert data[..i][k] == data[k]; }
    forall k | 0 <= k < j ensures !IsBreak(data[k]) { assert data[..j][k] == data[k]; }
  }

  /** What `next_line` returns: the line and the number of bytes to drop, or None for "need more bytes". */
  function NextCut(data: Bytes, priorCr: bool, atEof: bool): (r: Option<(Bytes, nat)>)
    ensures r.Some? ==> |r.value.0| <= r.value.1 <= |data| && r.value.0 == data[..|r.value.0|] && BreakFree(r.value.0)
    ensures r.Some? && !atEof ==> |r.value.0| < r.value.1
  {
    if priorCr && data != [] && data[0] == LF then Some(([], 1))
    else
      var i := FirstBreak(data);
      if i == |data| then
        assert data[..i] == data;
        if atEof then Some((data, |data|)) else None
      else if data[i] == LF then Some((data[..i], i + 1))
      else if i + 1 < |data| then Some((data[..i], if data[i + 1] == LF then i + 2 else i + 1))
      else if atEof then Some((data[..i], i + 1))
      else None
  }

  method NextLine(data: Bytes, priorCr: bool, atEof: bool) returns (r: Option<(Bytes, nat)>)
    ensures r == NextCut(data, priorCr, atEof)
  {
    if priorCr && data != [] && data[0] == LF {
      return Some(([], 1));
    }
    for i := 0 to |data|
      invariant BreakFree(data[..i])
    {
      if data[i] == LF {
        FirstBreakIs(data, i);
        return Some((data[..i], i + 1));
      } else if data[i] == CR {
        FirstBreakIs(data, i);
        if i + 1 < |data| {
          if data[i + 1] == LF {
            return Some((data[..i], i + 2));
          }
          return Some((data[..i], i + 1));
        }
        if atEof {
          return Some((data[..i], i + 1));
        }
        return None;
      }
      assert data[..i + 1] == data[..i] + [data[i]];
    }
    assert data[..|data|] == data;
    if atEof {
      return Some((data, |data|));
    }
    return None;
  }

  /** The carry flag never matters: an LF at the front is cut as an empty line whether or not it is set. */
  lemma {:induction false} CarryFlagIrrelevant(data: Bytes, priorCr: bool, atEof: bool)
    ensures NextCut(data, priorCr, atEof) == NextCut(data, false, atEof)
  {
    if priorCr && data != [] && data[0] == LF {
      FirstBreakIs(data, 0);
    }
  }

  /** At end of input a tail that had to wait is cut as one line, without the CR that ends it. */
  lemma {:induction false} AtEofTailIsLine(data: Bytes, priorCr: bool)
    requires Settled(data)
    ensures NextCut(data, priorCr, true) == Some((StripTrailingCr(data), |data|))
  {
    CarryFlagIrrelevant(data, priorCr, true);
    var i := FirstBreak(data);
    if i == |data| {
      assert data[..i] == data;
      assert data != [] ==> data[..i][|data| - 1] == data[|data| - 1];
    }
  }

  function StripTrailingCr(line: Bytes): Bytes {
    if line != [] && line[|line| - 1] == CR then line[..|line| - 1] else line
  }

  // ----- Draining a buffer: complete lines and the tail that must wait -----

  /** Every line that `next_line` can cut off `data` without seeing more bytes. */
  function Complete(data: Bytes): seq<Bytes>
    decreases |data|
  {
    var cut := NextCut(data, false, false);
    if cut.None? then [] else [cut.value.0] + Complete(data[cut.value.1..])
  }

  /** What is left of `data` once every complete line is cut off. */
  function Rest(data: Bytes): Bytes
    decreases |data|
  {
    var cut := NextCut(data, false, false);
    if cut.None? then data else Rest(data[cut.value.1..])
  }

  /** `data` without its first `n` complete lines. */
  function Skip(data: Bytes, n: nat): Bytes {
    var cut := NextCut(data, false, false);
    if n == 0 || cut.None? then data else Skip(data[cut.value.1..], n - 1)
  }

  /** No complete line can be cut off: no LF, and a CR only as the last byte. */
  predicate Settled(buf: Bytes) {
    forall i | 0 <= i < |buf| :: IsBreak(buf[i]) ==> i == |buf| - 1 && buf[i] == CR
  }

  lemma {:induction false} SettledIffNoCut(buf: Bytes)
    ensures Settled(buf) <==> NextCut(buf, false, false).None?
    ensures Settled(buf) ==> Complete(buf) == [] && Rest(buf) == buf
  {
    var i := FirstBreak(buf);
    if i < |buf| {
      forall j | 0 <= j < i ensures !IsBreak(buf[j]) { assert buf[..i][j] == buf[j]; }
      if NextCut(buf, false, false).None? {
        assert i == |buf| - 1;
      }
    } else {
      assert buf[..i] == buf;
    }
  }

  lemma {:induction false} RestSettled(data: Bytes)
    ensures Settled(Rest(data))
    decreases |data|
  {
    var cut := NextCut(data, false, false);
    if cut.None? {
      SettledIffNoCut(data);
    } else {
      RestSettled(data[cut.value.1..]);
    }
  }

  /** A line that can be cut already is cut the same way when more bytes follow. */
  lemma {:induction false} CutAppend(a: Bytes, b: Bytes)
    requires NextCut(a, false, false).Some?
    ensures NextCut(a + b, false, false) == NextCut(a, false, false)
  {
    var i := FirstBreak(a);
    assert (a + b)[..i] == a[..i];
    FirstBreakIs(a + b, i);
  }

  /** Cutting `a + b` is cutting `a`, then cutting what `a` left over followed by `b`. */
  lemma {:induction false} SplitAppend(a: Bytes, b: Bytes)
    ensures Complete(a + b) == Complete(a) + Complete(Rest(a) + b)
    ensures Rest(a + b) == Rest(Rest(a) + b)
    decreases |a|
  {
    hide NextCut;
    var cut := NextCut(a, false, false);
    if cut.Some? {
      var n := cut.value.1;
      CutAppend(a, b);
      assert (a + b)[n..] == a[n..] + b;
      SplitAppend(a[n..], b);
    }
  }

  // ----- The one-shot splitter: normalise line ends, then split at LF -----

  /** Every CRLF and every other CR becomes one LF. */
  function Normalize(d: Bytes): Bytes {
    if d == [] then []
    else if d[0] == CR then [LF] + Normalize(if |d| > 1 && d[1] == LF then d[2..] else d[1..])
    else [d[0]] + Normalize(d[1..])
  }

  /** The lines of LF-separated text; a last line without LF counts when it is not empty. */
  function TextLines(d: Bytes): (ls: seq<Bytes>)
    ensures d != [] ==> ls != []
  {
    if d == [] then []
    else if d[0] == LF then [[]] + TextLines(d[1..])
    else
      var ls := TextLines(d[1..]);
      if ls == [] then [[d[0]]] else [[d[0]] + ls[0]] + ls[1..]
  }

  function Lines(d: Bytes): seq<Bytes> {
    TextLines(Normalize(d))
  }

  lemma {:induction false} NormalizeBreakFree(l: Bytes, d: Bytes)
    requires BreakFree(l)
    ensures Normalize(l + d) == l + Normalize(d)
  {
    if l == [] {
      assert l + d == d;
      assert l + Normalize(d) == Normalize(d);
    } else {
      assert (l + d)[1..] == l[1..] + d;
      NormalizeBreakFree(l[1..], d);
      assert l + Normalize(d) == [l[0]] + (l[1..] + Normalize(d));
    }
  }

  lemma {:induction false} TextLinesCut(l: Bytes, d: Bytes)
    requires BreakFree(l)
    ensures TextLines(l + [LF] + d) == [l] + TextLines(d)
  {
    if l == [] {
      assert (l + [LF] + d)[1..] == d;
    } else {
      var whole := l + [LF] + d;
      assert whole[1..] == l[1..] + [LF] + d;
      TextLinesCut(l[1..], d);
      assert [l[0]] + l[1..] == l;
    }
  }

  lemma {:induction false} TextLinesUnbroken(l: Bytes)
    requires BreakFree(l)
    ensures TextLines(l) == if l == [] then [] else [l]
  {
    if l != [] {
      assert !IsBreak(l[0]);
      TextLinesUnbroken(l[1..]);
      assert l == [l[0]] + l[1..];
      assert l[1..] == [] ==> l == [l[0]];
    }
  }

  /** The line a non-empty tail stands for at end of input. */
  function Final(rest: Bytes): seq<Bytes> {
    if rest == [] then [] else [StripTrailingCr(rest)]
  }

  lemma {:induction false} NormalizeSettled(d: Bytes)
    requires Settled(d)
    ensures Lines(d) == Final(d)
  {
    if d != [] && d[|d| - 1] == CR {
      var l := d[..|d| - 1];
      assert d == l + [CR];
      NormalizeBreakFree(l, [CR]);
      assert Normalize([CR]) == [LF] + Normalize([]);
      assert l + [LF] == l + [LF] + [];
      TextLinesCut(l, []);
      assert Normalize(d) == l + [LF];
      assert TextLines([]) == [];
    } else {
      assert BreakFree(d);
      NormalizeBreakFree(d, []);
      assert d + [] == d;
      TextLinesUnbroken(d);
    }
  }

  /** Cutting one line off the raw bytes cuts one line off the normalised text. */
  lemma {:induction false} CutIsLine(d: Bytes)
    requires NextCut(d, false, false).Some?
    ensures var (l, n) := NextCut(d, false, false).value; Lines(d) == [l] + Lines(d[n..])
  {
    var (l, n) := NextCut(d, false, false).value;
    var t := d[|l|..];
    assert d == l + t;
    NormalizeBreakFree(l, t);
    BreakIsOneLf(t, n - |l|);
    assert t[n - |l|..] == d[n..];
    assert l + ([LF] + Normalize(d[n..])) == l + [LF] + Normalize(d[n..]);
    TextLinesCut(l, Normalize(d[n..]));
  }

  lemma {:induction false} BreakIsOneLf(t: Bytes, w: nat)
    requires t != [] && IsBreak(t[0]) && (t[0] == CR ==> |t| > 1)
    requires w == if t[0] == CR && t[1] == LF then 2 else 1
    ensures Normalize(t) == [LF] + Normalize(t[w..])
  {
  }

  /** Deferred cutting plus the flush at end of input is exactly the one-shot splitter. */
  lemma {:induction false} CutsAreLines(d: Bytes)
    ensures Lines(d) == Complete(d) + Final(Rest(d))
    decreases |d|
  {
    var cut := NextCut(d, false, false);
    if cut.None? {
      SettledIffNoCut(d);
      NormalizeSettled(d);
    } else {
      CutIsLine(d);
      CutsAreLines(d[cut.value.1..]);
    }
  }

  // ----- Text written with one fixed line ending -----

  /** The given lines, each followed by `ending`. */
  function Terminate(lines: seq<Bytes>, ending: Bytes): Bytes {
    if lines == [] then [] else lines[0] + ending + Terminate(lines[1..], ending)
  }

  predicate IsEnding(e: Bytes) {
    e == [LF] || e == [CR] || e == [CR, LF]
  }

  predicate AllBreakFree(lines: seq<Bytes>) {
    forall i | 0 <= i < |lines| :: BreakFree(lines[i])
  }

  /** Splitting undoes terminating, for each of the three line endings. */
  lemma {:induction false} LinesOfTerminated(lines: seq<Bytes>, ending: Bytes)
    requires AllBreakFree(lines) && IsEnding(ending)
    ensures Lines(Terminate(lines, ending)) == lines
  {
    if lines != [] {
      hide Lines;
      TerminatedHead(lines[1..], ending);
      TerminatedLine(lines[0], ending, Terminate(lines[1..], ending));
      LinesOfTerminated(lines[1..], ending);
    }
  }

  lemma {:induction false} TerminatedLine(l: Bytes, ending: Bytes, t: Bytes)
    requires BreakFree(l) && IsEnding(ending)
    requires t != [] && t[0] == LF ==> ending == [LF]
    ensures Lines(l + ending + t) == [l] + Lines(t)
  {
    assert l + ending + t == l + (ending + t);
    NormalizeBreakFree(l, ending + t);
    assert (ending + t)[|ending|..] == t;
    assert Normalize(ending + t) == [LF] + Normalize(t);
    assert l + ([LF] + Normalize(t)) == l + [LF] + Normalize(t);
    TextLinesCut(l, Normalize(t));
  }

  lemma {:induction false} TerminatedHead(lines: seq<Bytes>, ending: Bytes)
    requires AllBreakFree(lines) && IsEnding(ending)
    ensures var t := Terminate(lines, ending); t != [] && t[0] == LF ==> ending == [LF]
  {
    if lines != [] {
      var l := lines[0];
      assert Terminate(lines, ending)[0] == if l == [] then ending[0] else l[0];
    }
  }

  /** Bare CR holds the last line back until more bytes or end of input arrive; LF and CRLF do not. */
  lemma {:induction false} BareCrHoldsLastLine(lines: seq<Bytes>, ending: Bytes)
    requires AllBreakFree(lines) && IsEnding(ending) && lines != []
    ensures Complete(Terminate(lines, ending)) == if ending == [CR] then lines[..|lines| - 1] else lines
    ensures Rest(Terminate(lines, ending)) == if ending == [CR] then lines[|lines| - 1] + [CR] else []
  {
    hide Complete, Rest;
    if |lines| == 1 {
      BareCrOneLine(lines[0], ending);
      assert Terminate(lines[1..], ending) == [];
      assert Terminate(lines, ending) == lines[0] + ending;
    } else {
      var l, t := lines[0], Terminate(lines[1..], ending);
      TerminatedHead(lines[1..], ending);
      TerminatedCut(l, ending, t);
      BareCrHoldsLastLine(lines[1..], ending);
      assert lines[..|lines| - 1] == [l] + lines[1..][..|lines| - 2];
      assert lines == [l] + lines[1..];
    }
  }

  lemma {:induction false} BareCrOneLine(l: Bytes, ending: Bytes)
    requires BreakFree(l) && IsEnding(ending)
    ensures Complete(l + ending) == if ending == [CR] then [] else [l]
    ensures Rest(l + ending) == if ending == [CR] then l + [CR] else []
  {
    assert (l + ending)[..|l|] == l;
    FirstBreakIs(l + ending, |l|);
    assert (l + ending)[|l| + |ending|..] == [];
  }

  lemma {:induction false} TerminatedCut(l: Bytes, ending: Bytes, t: Bytes)
    requires BreakFree(l) && IsEnding(ending) && t != []
    requires t[0] == LF ==> ending == [LF]
    ensures Complete(l + ending + t) == [l] + Complete(t)
    ensures Rest(l + ending + t) == Rest(t)
  {
    var d := l + ending + t;
    assert d[..|l|] == l;
    FirstBreakIs(d, |l|);
    assert d[|l| + |ending|..] == t;
  }
}
