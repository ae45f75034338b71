/** What stands below a command, read off the stored traces themselves. */
module FlameCommands {
  import opened Wrappers
  import opened Bytes
  import opened FlameTrie
  import opened FlameChains
  import opened FlameSort
  import opened StackTraces
  import opened TraceEvents
  import opened EventRange
  import opened EventSamples
  import opened FlameBuild
  import opened FlameTotals

  // ------------------------------------------------------------------- events

  /** The commands that have an event with a stored trace, in order of the first one. */
  ghost function Commands(events: seq<Event>, traces: Traces): (r: seq<string>)
    ensures |r| <= |events|
  {
    if |events| == 0 then []
    else
      var most, v := Commands(events[..|events| - 1], traces), events[|events| - 1].value;
      if v.traceHash in traces && v.comm !in most then most + [v.comm] else most
  }

  /** Ids of a stored trace's frames, outermost first. */
  ghost function TraceIds(trace: seq<Frame>): (ids: seq<FrameId>)
    ensures |ids| == |trace| && forall i {:trigger ids[i]} | 0 <= i < |ids| :: ids[i] == trace[|trace| - 1 - i].id
  {
    seq(|trace|, i requires 0 <= i < |trace| => trace[|trace| - 1 - i].id)
  }

  ghost predicate Starts(p: seq<FrameId>, trace: seq<Frame>) {
    p <= TraceIds(trace)
  }

  /** Stored traces start at the leaf: `p` are the ids of their last frames, backwards. */
  lemma {:induction false} StartsBackwards(p: seq<FrameId>, trace: seq<Frame>)
    ensures Starts(p, trace) <==> |p| <= |trace| && forall i {:trigger p[i]} | 0 <= i < |p| :: p[i] == trace[|trace| - 1 - i].id
  {
    var ids := TraceIds(trace);
    if |p| <= |trace| && forall i {:trigger p[i]} | 0 <= i < |p| :: p[i] == trace[|trace| - 1 - i].id {
      assert p == ids[..|p|];
    }
  }

  /** Whether the event is one of the command, with a stored trace that `p` starts. */
  ghost predicate EventStarts(e: Event, traces: Traces, name: string, p: seq<FrameId>) {
    e.value.comm == name && e.value.traceHash in traces && Starts(p, traces[e.value.traceHash])
  }

  ghost predicate SomeStarts(events: seq<Event>, traces: Traces, name: string, p: seq<FrameId>) {
    exists i {:trigger events[i]} :: 0 <= i < |events| && EventStarts(events[i], traces, name, p)
  }

  /** Total count of the command's events whose trace `p` starts. */
  ghost function StartCount(events: seq<Event>, traces: Traces, name: string, p: seq<FrameId>): nat {
    if |events| == 0 then 0
    else
      var e := events[|events| - 1];
      StartCount(events[..|events| - 1], traces, name, p) + if EventStarts(e, traces, name, p) then e.value.count else 0
  }

  /** Total count of the command's events whose trace is all of `p`. */
  ghost function WholeCount(events: seq<Event>, traces: Traces, name: string, p: seq<FrameId>): nat {
    if |events| == 0 then 0
    else
      var e := events[|events| - 1];
      WholeCount(events[..|events| - 1], traces, name, p)
      + if EventStarts(e, traces, name, p) && |p| == |traces[e.value.traceHash]| then e.value.count else 0
  }

  /** How many records the last frame of `p` had in the first event of the command whose
      trace `p` starts: one for an abort frame, and else what it symbolizes to. Zero if
      there is no such event. */
  ghost function FirstRecords(events: seq<Event>, traces: Traces, chain: Frame -> ChainLength, name: string, p: seq<FrameId>): nat {
    if |events| == 0 then 0
    else
      var before, e := FirstRecords(events[..|events| - 1], traces, chain, name, p), events[|events| - 1];
      if before > 0 then before
      else if |p| > 0 && EventStarts(e, traces, name, p) then
        var trace := traces[e.value.traceHash];
        var f := trace[|trace| - |p|];
        if f.kind.Abort? then 1 else chain(f)
      else 0
  }

  // ------------------------------------------------------------------ proofs

  lemma {:induction false} AggregateCommands(events: seq<Event>, traces: Traces, chain: Frame -> ChainLength)
    requires |events| <= U64_MAX
    ensures Aggregate(events, traces, chain).names == Commands(events, traces)
    decreases |events|
  {
    if |events| > 0 {
      AggregateCommands(events[..|events| - 1], traces, chain);
    }
  }

  lemma {:induction false} StartsPath(p: seq<FrameId>, trace: seq<Frame>, chain: Frame -> ChainLength)
    ensures IsPrefix(p, PathOf(trace, chain)) <==> Starts(p, trace)
  {
    StartsBackwards(p, trace);
  }

  lemma {:induction false} SomeStartsStep(events: seq<Event>, traces: Traces, name: string, p: seq<FrameId>)
    requires |events| > 0
    ensures SomeStarts(events, traces, name, p) <==>
      SomeStarts(events[..|events| - 1], traces, name, p) || EventStarts(events[|events| - 1], traces, name, p)
  {
    var most := events[..|events| - 1];
    if SomeStarts(events, traces, name, p) {
      var i :| 0 <= i < |events| && EventStarts(events[i], traces, name, p);
      assert i < |most| ==> most[i] == events[i];
    }
    if SomeStarts(most, traces, name, p) {
      var i :| 0 <= i < |most| && EventStarts(most[i], traces, name, p);
      assert events[i] == most[i];
    }
  }

  /** The samples that are inserted for a command are its stored traces, from the
      outermost frame on. */
  lemma {:induction false} SamplesAreTraces(events: seq<Event>, traces: Traces, chain: Frame -> ChainLength, name: string, p: seq<FrameId>)
    ensures
      var ss := CommSamples(events, traces, chain, name);
      && (SomePrefix(ss, p) <==> SomeStarts(events, traces, name, p))
      && PrefixTotal(ss, p) == StartCount(events, traces, name, p)
      && PathTotal(ss, p) == WholeCount(events, traces, name, p)
  {
    SamplesStart(events, traces, chain, name, p);
    SamplesTotal(events, traces, chain, name, p);
  }

  /** One more event: a sample more for its command, and none for the others. */
  ghost predicate Sampled(ss: seq<Sample>, most: seq<Sample>, v: TraceCount, traces: Traces, chain: Frame -> ChainLength, name: string) {
    if v.traceHash in traces && v.comm == name then
      |ss| > 0 && ss[..|ss| - 1] == most && ss[|ss| - 1] == Sample(PathOf(traces[v.traceHash], chain), v.count)
    else ss == most
  }

  lemma {:induction false} SampleStep(events: seq<Event>, traces: Traces, chain: Frame -> ChainLength, name: string)
    requires |events| > 0
    ensures Sampled(CommSamples(events, traces, chain, name), CommSamples(events[..|events| - 1], traces, chain, name),
                    events[|events| - 1].value, traces, chain, name)
  {
  }

  lemma {:induction false} SamplesStart(events: seq<Event>, traces: Traces, chain: Frame -> ChainLength, name: string, p: seq<FrameId>)
    ensures SomePrefix(CommSamples(events, traces, chain, name), p) <==> SomeStarts(events, traces, name, p)
    decreases |events|
  {
    if |events| > 0 {
      SamplesStart(events[..|events| - 1], traces, chain, name, p);
      SampleStep(events, traces, chain, name);
      StartStep(events, CommSamples(events, traces, chain, name), CommSamples(events[..|events| - 1], traces, chain, name),
                traces, chain, name, p);
    }
  }

  lemma {:induction false} StartStep(events: seq<Event>, ss: seq<Sample>, most: seq<Sample>, traces: Traces, chain: Frame -> ChainLength, name: string, p: seq<FrameId>)
    requires |events| > 0 && Sampled(ss, most, events[|events| - 1].value, traces, chain, name)
    requires SomePrefix(most, p) <==> SomeStarts(events[..|events| - 1], traces, name, p)
    ensures SomePrefix(ss, p) <==> SomeStarts(events, traces, name, p)
  {
    SomeStartsStep(events, traces, name, p);
    var v := events[|events| - 1].value;
    if v.traceHash in traces && v.comm == name {
      SomePrefixStep(ss, p);
      StartsPath(p, traces[v.traceHash], chain);
    }
  }

  lemma {:induction false} SamplesTotal(events: seq<Event>, traces: Traces, chain: Frame -> ChainLength, name: string, p: seq<FrameId>)
    ensures PrefixTotal(CommSamples(events, traces, chain, name), p) == StartCount(events, traces, name, p)
    ensures PathTotal(CommSamples(events, traces, chain, name), p) == WholeCount(events, traces, name, p)
    decreases |events|
  {
    if |events| > 0 {
      SamplesTotal(events[..|events| - 1], traces, chain, name, p);
      SampleStep(events, traces, chain, name);
      TotalStep(events, CommSamples(events, traces, chain, name), CommSamples(events[..|events| - 1], traces, chain, name),
                traces, chain, name, p);
    }
  }

  lemma {:induction false} TotalStep(events: seq<Event>, ss: seq<Sample>, most: seq<Sample>, traces: Traces, chain: Frame -> ChainLength, name: string, p: seq<FrameId>)
    requires |events| > 0 && Sampled(ss, most, events[|events| - 1].value, traces, chain, name)
    requires PrefixTotal(most, p) == StartCount(events[..|events| - 1], traces, name, p)
    requires PathTotal(most, p) == WholeCount(events[..|events| - 1], traces, name, p)
    ensures PrefixTotal(ss, p) == StartCount(events, traces, name, p)
    ensures PathTotal(ss, p) == WholeCount(events, traces, name, p)
  {
    var v := events[|events| - 1].value;
    if v.traceHash in traces && v.comm == name {
      StartsPath(p, traces[v.traceHash], chain);
    }
  }

  /** A frame has as many records in the first of them as in the first such event. */
  lemma {:induction false} FirstSampleIsFirst(events: seq<Event>, traces: Traces, chain: Frame -> ChainLength, name: string, p: seq<FrameId>)
    ensures FirstChain(CommSamples(events, traces, chain, name), p) == FirstRecords(events, traces, chain, name, p)
    decreases |events|
  {
    if |events| > 0 {
      FirstSampleIsFirst(events[..|events| - 1], traces, chain, name, p);
      SampleStep(events, traces, chain, name);
      FirstStep(events, CommSamples(events, traces, chain, name), CommSamples(events[..|events| - 1], traces, chain, name),
                traces, chain, name, p);
    }
  }

  lemma {:induction false} FirstStep(events: seq<Event>, ss: seq<Sample>, most: seq<Sample>, traces: Traces, chain: Frame -> ChainLength, name: string, p: seq<FrameId>)
    requires |events| > 0 && Sampled(ss, most, events[|events| - 1].value, traces, chain, name)
    requires FirstChain(most, p) == FirstRecords(events[..|events| - 1], traces, chain, name, p)
    ensures FirstChain(ss, p) == FirstRecords(events, traces, chain, name, p)
  {
    var v := events[|events| - 1].value;
    if v.traceHash in traces && v.comm == name {
      StartsPath(p, traces[v.traceHash], chain);
    }
  }

  // ------------------------------------------------------------------ result

  /** Below a command, in the finished graph: a path is there if and only if it starts
      some stored trace of the command's events, outermost frame first; its weight is the
      total count of those events, and its self weight that of those whose trace it is. */
  lemma {:induction false} CommandByEvents(t: Tree, events: seq<Event>, traces: Traces, chain: Frame -> ChainLength, i: nat, p: seq<FrameId>)
    requires |events| <= U64_MAX && i < |Commands(events, traces)|
    requires SortOf(Unsorted(events, traces, chain), t)
    ensures Inv(t, 0)
    ensures
      var name, r := Commands(events, traces)[i], Reach(t, 0, [FrameId(0, i)] + p);
      && (r.Some? <==> |p| == 0 || SomeStarts(events, traces, name, p))
      && WeightOf(r) == StartCount(events, traces, name, p)
      && SelfOf(r) == WholeCount(events, traces, name, p)
  {
    AggregateCommands(events, traces, chain);
    CommandExact(t, events, traces, chain, i, p);
    SamplesAreTraces(events, traces, chain, Commands(events, traces)[i], p);
  }
}
