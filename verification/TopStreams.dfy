/** The first three stages behind the top-functions view: events, raw frames and
    symbolized locations, passed on as flat streams in which a flag marks where the
    next trace starts. */
module TopStreams {
  import opened Wrappers
  import opened Bytes
  import opened StackTraces
  import opened TraceEvents
  import opened EventRange
  import opened EventSamples
  import opened EventBuckets
  import opened Symbolizer

  datatype Location = Location(kind: FrameKind, func: string, file: Option<string>)

  /** `str::contains` */
  predicate HasText(s: string, part: string) {
    part <= s || (|s| > 0 && HasText(s[1..], part))
  }

  /** `Location::matches_filter` */
  predicate MatchesFilter(l: Location, filter: string) {
    HasText(l.func, filter) || (l.file.Some? && HasText(l.file.value, filter))
  }

  predicate Accepted(l: Location, filter: string) {
    |filter| == 0 || MatchesFilter(l, filter)
  }

  type Symbols = Frame -> seq<SymbolizedFrame>

  datatype RawEvent = RawEvent(traceHash: TraceHash, count: nat)

  datatype RawFrame = RawFrame(frame: Frame, index: nat, count: nat)

  /** `first` is the `new_trace_start` flag. */
  datatype Item = Item(loc: Location, first: bool, count: nat)

  // -------------------------------------------------------- nested meaning

  /** The locations of one frame, innermost first: those with a function that pass
      the filter. `syms` are its records, outermost first. */
  function Locations(frame: Frame, syms: seq<SymbolizedFrame>, filter: string): seq<Location>
    decreases |syms|
  {
    if |syms| == 0 then []
    else
      var s, rest := syms[0], Locations(frame, syms[1..], filter);
      if s.func.None? then rest
      else
        var l := Location(frame.kind, s.func.value, s.file);
        if Accepted(l, filter) then rest + [l] else rest
  }

  /** All locations of a trace, from the leaf on. */
  function TraceLocations(trace: seq<Frame>, symbols: Symbols, filter: string): seq<Location>
    decreases |trace|
  {
    if |trace| == 0 then []
    else
      var f := trace[|trace| - 1];
      TraceLocations(trace[..|trace| - 1], symbols, filter) + Locations(f, symbols(f), filter)
  }

  /** Locations as stream items; only the first can carry the flag. */
  function Emit(locs: seq<Location>, flag: bool, count: nat): (r: seq<Item>)
    ensures |r| == |locs|
    ensures forall i {:trigger r[i]} | 0 <= i < |r| :: r[i] == Item(locs[i], i == 0 && flag, count)
  {
    seq(|locs|, i requires 0 <= i < |locs| => Item(locs[i], i == 0 && flag, count))
  }

  /** What the stream means: trace by trace, the locations of every stored trace, the
      first of them flagged. */
  ghost function Items(events: seq<Event>, traces: Traces, symbols: Symbols, filter: string): seq<Item>
    decreases |events|
  {
    if |events| == 0 then []
    else
      var v := events[|events| - 1].value;
      var most := Items(events[..|events| - 1], traces, symbols, filter);
      if v.traceHash in traces then most + Emit(TraceLocations(traces[v.traceHash], symbols, filter), true, v.count)
      else most
  }

  // ---------------------------------------------------------- stages 1 and 2

  /** Stage 1: pull the events of the range, and total their counts. */
  method PullEvents(table: EventTable, start: u64, end: u64, ghost events: seq<Event>)
    returns (out: seq<RawEvent>, totalSamples: nat)
    requires IsTable(table.store, events)
    ensures out == RawEvents(Selected(events, start, end, Mixed))
    ensures totalSamples == TotalCount(Selected(events, start, end, Mixed))
  {
    var selected := TimeRange(table, start, end, Mixed, events);
    out, totalSamples := SendEvents(selected);
  }

  method SendEvents(selected: seq<Event>) returns (out: seq<RawEvent>, totalSamples: nat)
    ensures out == RawEvents(selected) && totalSamples == TotalCount(selected)
  {
    out, totalSamples := [], 0;
    var j := 0;
    while j < |selected|
      invariant j <= |selected|
      invariant out == RawEvents(selected[..j]) && totalSamples == TotalCount(selected[..j])
    {
      assert selected[..j + 1][..j] == selected[..j];
      var v := selected[j].value;
      totalSamples := totalSamples + v.count;
      out := out + [RawEvent(v.traceHash, v.count)];
      j := j + 1;
    }
    assert selected[..j] == selected;
  }

  function RawEvents(events: seq<Event>): (r: seq<RawEvent>)
    ensures |r| == |events|
    ensures forall i {:trigger r[i]} | 0 <= i < |r| :: r[i] == RawEvent(events[i].value.traceHash, events[i].value.count)
  {
    seq(|events|, i requires 0 <= i < |events| => RawEvent(events[i].value.traceHash, events[i].value.count))
  }

  function TraceFrames(trace: seq<Frame>, count: nat): (r: seq<RawFrame>)
    ensures |r| == |trace|
    ensures forall i {:trigger r[i]} | 0 <= i < |r| :: r[i] == RawFrame(trace[i], i, count)
  {
    seq(|trace|, i requires 0 <= i < |trace| => RawFrame(trace[i], i, count))
  }

  ghost function RawFrames(events: seq<RawEvent>, traces: Traces): seq<RawFrame>
    decreases |events|
  {
    if |events| == 0 then []
    else
      var e := events[|events| - 1];
      var most := RawFrames(events[..|events| - 1], traces);
      if e.traceHash in traces then most + TraceFrames(traces[e.traceHash], e.count) else most
  }

  /** Stage 2: pull in the frame lists. */
  method PullFrames(events: seq<RawEvent>, traces: Traces) returns (out: seq<RawFrame>)
    ensures out == RawFrames(events, traces)
  {
    out := [];
    var j := 0;
    while j < |events|
      invariant j <= |events|
      invariant out == RawFrames(events[..j], traces)
    {
      assert events[..j + 1][..j] == events[..j];
      if events[j].traceHash in traces {
        var sent := SendFrames(traces[events[j].traceHash], events[j].count);
        out := out + sent;
      }
      j := j + 1;
    }
    assert events[..j] == events;
  }

  method SendFrames(trace: seq<Frame>, count: nat) returns (out: seq<RawFrame>)
    ensures out == TraceFrames(trace, count)
  {
    out := [];
    var i := 0;
    while i < |trace|
      invariant i <= |trace|
      invariant out == TraceFrames(trace[..i], count)
    {
      out := out + [RawFrame(trace[i], i, count)];
      i := i + 1;
    }
    assert trace[..i] == trace;
  }

  // ------------------------------------------------------------------ stage 3

  /** What stage 3 has sent, and the flag it holds, after the given frames. */
  ghost function Symbolized(raw: seq<RawFrame>, symbols: Symbols, filter: string): (seq<Item>, bool)
    decreases |raw|
  {
    if |raw| == 0 then ([], false)
    else
      var f := raw[|raw| - 1];
      var (out, held) := Symbolized(raw[..|raw| - 1], symbols, filter);
      var flag, locs := held || f.index == 0, Locations(f.frame, symbols(f.frame), filter);
      (out + Emit(locs, flag, f.count), flag && |locs| == 0)
  }

  /** Stage 3: symbolize, innermost inline record first, filter, and hand the flag to
      the first location that is sent (`mem::take`). */
  method PullSymbols(raw: seq<RawFrame>, symbols: Symbols, filter: string) returns (out: seq<Item>)
    ensures out == Symbolized(raw, symbols, filter).0
  {
    out := [];
    var newTrace := false;
    var j := 0;
    while j < |raw|
      invariant j <= |raw|
      invariant (out, newTrace) == Symbolized(raw[..j], symbols, filter)
    {
      assert raw[..j + 1][..j] == raw[..j];
      var f := raw[j];
      if f.index == 0 {
        newTrace := true;
      }
      var sent;
      sent, newTrace := SendLocations(f, symbols(f.frame), filter, newTrace);
      out := out + sent;
      j := j + 1;
    }
    assert raw[..j] == raw;
  }

  method SendLocations(f: RawFrame, syms: seq<SymbolizedFrame>, filter: string, flag: bool) returns (out: seq<Item>, newTrace: bool)
    ensures out == Emit(Locations(f.frame, syms, filter), flag, f.count)
    ensures newTrace == (flag && |Locations(f.frame, syms, filter)| == 0)
  {
    out, newTrace := [], flag;
    var i := |syms|;
    while i > 0
      invariant 0 <= i <= |syms|
      invariant out == Emit(Locations(f.frame, syms[i..], filter), flag, f.count)
      invariant newTrace == (flag && |out| == 0)
    {
      i := i - 1;
      assert syms[i..][1..] == syms[i + 1..];
      var inline := syms[i];
      if inline.func.Some? {
        var location := Location(f.frame.kind, inline.func.value, inline.file);
        if |filter| == 0 || MatchesFilter(location, filter) {
          out := out + [Item(location, newTrace, f.count)];
          newTrace := false;
        }
      }
    }
    assert syms[i..] == syms;
  }

  // ------------------------------------------------------------------ proofs

  /** The text contains the part at some position. */
  lemma {:induction false} HasTextSomewhere(s: string, part: string)
    ensures HasText(s, part) <==> exists i {:trigger s[i..]} :: 0 <= i <= |s| && part <= s[i..]
    decreases |s|
  {
    assert s[0..] == s;
    if |s| > 0 {
      HasTextSomewhere(s[1..], part);
      if HasText(s[1..], part) {
        var i :| 0 <= i <= |s[1..]| && part <= s[1..][i..];
        assert s[1..][i..] == s[i + 1..];
      }
      forall i | 0 < i <= |s| && part <= s[i..] ensures HasText(s[1..], part) {
        assert s[1..][i - 1..] == s[i..];
      }
    }
  }

  /** The innermost record comes first: one more at the end puts its location in front,
      if it has a function and the filter is empty or found in function or file. */
  lemma {:induction false} InnermostFirst(frame: Frame, syms: seq<SymbolizedFrame>, s: SymbolizedFrame, filter: string)
    ensures |Locations(frame, syms[..0], filter)| == 0
    ensures Locations(frame, syms + [s], filter) ==
      (if s.func.Some?
          && (|filter| == 0 || HasText(s.func.value, filter) || (s.file.Some? && HasText(s.file.value, filter)))
       then [Location(frame.kind, s.func.value, s.file)] else [])
      + Locations(frame, syms, filter)
    decreases |syms|
  {
    var all := syms + [s];
    if |syms| == 0 {
      assert all == [s] && |all[1..]| == 0;
    } else {
      assert all[0] == syms[0] && all[1..] == syms[1..] + [s];
      InnermostFirst(frame, syms[1..], s, filter);
      assert |syms[1..][..0]| == 0;
    }
  }

  lemma {:induction false} Shifted<T>(a: seq<T>, b: seq<T>, c: seq<T>)
    ensures (a + b) + c == a + (b + c)
  {
  }

  /** A trace emits what its leaf emits, and then what the frames above it do. */
  lemma {:induction false} LeafFirst(trace: seq<Frame>, symbols: Symbols, filter: string)
    requires |trace| > 0
    ensures TraceLocations(trace, symbols, filter) ==
      Locations(trace[0], symbols(trace[0]), filter) + TraceLocations(trace[1..], symbols, filter)
    decreases |trace|
  {
    var n := |trace| - 1;
    if n == 0 {
      assert |trace[..0]| == 0 && |trace[1..]| == 0;
    } else {
      LeafFirst(trace[..n], symbols, filter);
      assert trace[..n][1..] == trace[1..][..n - 1] && trace[1..][n - 1] == trace[n];
      var leaf, most := Locations(trace[0], symbols(trace[0]), filter), TraceLocations(trace[1..][..n - 1], symbols, filter);
      Shifted(leaf, most, Locations(trace[n], symbols(trace[n]), filter));
    }
  }

  lemma {:induction false} EmitConcat(a: seq<Location>, b: seq<Location>, flag: bool, count: nat)
    ensures Emit(a + b, flag, count) == Emit(a, flag, count) + Emit(b, flag && |a| == 0, count)
  {
  }

  /** Along the frames of one trace, what is sent is what the trace emits, however
      the flag stood before: the first frame raises it. */
  lemma {:induction false} AlongTrace(pre: seq<RawFrame>, trace: seq<Frame>, count: nat, symbols: Symbols, filter: string)
    requires |trace| > 0
    ensures
      var locs := TraceLocations(trace, symbols, filter);
      Symbolized(pre + TraceFrames(trace, count), symbols, filter) ==
        (Symbolized(pre, symbols, filter).0 + Emit(locs, true, count), |locs| == 0)
    decreases |trace|
  {
    var n := |trace| - 1;
    var raw := pre + TraceFrames(trace, count);
    assert raw[..|raw| - 1] == pre + TraceFrames(trace[..n], count);
    var most, own := TraceLocations(trace[..n], symbols, filter), Locations(trace[n], symbols(trace[n]), filter);
    if n > 0 {
      AlongTrace(pre, trace[..n], count, symbols, filter);
      EmitConcat(most, own, true, count);
      var out := Symbolized(pre, symbols, filter).0;
      assert (out + Emit(most, true, count)) + Emit(own, |most| == 0, count) == out + (Emit(most, true, count) + Emit(own, |most| == 0, count));
    } else {
      assert pre + TraceFrames(trace[..n], count) == pre;
      assert most + own == own;
    }
  }

  /** The flat stream is the nested one, also across traces that emit nothing. */
  lemma {:induction false} StreamIsNested(events: seq<Event>, traces: Traces, symbols: Symbols, filter: string)
    ensures Symbolized(RawFrames(RawEvents(events), traces), symbols, filter).0 == Items(events, traces, symbols, filter)
    decreases |events|
  {
    if |events| > 0 {
      var n := |events| - 1;
      var v := events[n].value;
      StreamIsNested(events[..n], traces, symbols, filter);
      assert RawEvents(events)[..n] == RawEvents(events[..n]);
      var pre := RawFrames(RawEvents(events[..n]), traces);
      if v.traceHash in traces {
        var trace := traces[v.traceHash];
        if |trace| > 0 {
          AlongTrace(pre, trace, v.count, symbols, filter);
        } else {
          assert pre + TraceFrames(trace, v.count) == pre;
        }
      }
    }
  }
}
