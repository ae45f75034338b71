/** `sample_events`: the events of a time range merged by trace hash. */
module EventSamples {
  import opened Bytes
  import opened StackTraces
  import opened TraceEvents
  import opened EventRange

  /** The table of stack traces. */
  type Traces = map<TraceHash, seq<Frame>>

  datatype SampledTrace = SampledTrace(count: nat, trace: seq<Frame>)

  // ------------------------------------------------------------------- spec

  /** Total count of the events with the given trace hash. */
  ghost function HashCount(events: seq<Event>, h: TraceHash): nat {
    if |events| == 0 then 0
    else
      var v := events[|events| - 1].value;
      HashCount(events[..|events| - 1], h) + if v.traceHash == h then v.count else 0
  }

  /** Total count of the events whose trace is stored. */
  ghost function StoredCount(events: seq<Event>, traces: Traces): nat {
    if |events| == 0 then 0
    else
      var v := events[|events| - 1].value;
      StoredCount(events[..|events| - 1], traces) + if v.traceHash in traces then v.count else 0
  }

  ghost predicate Occurs(events: seq<Event>, h: TraceHash) {
    exists i {:trigger events[i]} :: 0 <= i < |events| && events[i].value.traceHash == h
  }

  /** One entry per stored trace that occurs, holding it and its events' total count. */
  ghost predicate Merged(r: map<TraceHash, SampledTrace>, events: seq<Event>, traces: Traces) {
    && (forall h {:trigger h in r} :: h in r <==> h in traces && Occurs(events, h))
    && (forall h {:trigger r[h]} | h in r && h in traces :: r[h] == SampledTrace(HashCount(events, h), traces[h]))
  }

  ghost function SampleTotal(r: map<TraceHash, SampledTrace>): nat
    decreases |r|
  {
    if r == map[] then 0
    else
      var h :| h in r;
      r[h].count + SampleTotal(r - {h})
  }

  // ------------------------------------------------------------------- code

  method SampleEvents(table: EventTable, traces: Traces, kind: SampleKind, start: u64, end: u64, ghost events: seq<Event>)
    returns (samples: map<TraceHash, SampledTrace>)
    requires IsTable(table.store, events)
    ensures Merged(samples, Selected(events, start, end, kind), traces)
  {
    var selected := TimeRange(table, start, end, kind, events);
    samples := MergeEvents(selected, traces);
  }

  method MergeEvents(selected: seq<Event>, traces: Traces) returns (samples: map<TraceHash, SampledTrace>)
    ensures Merged(samples, selected, traces)
  {
    samples := map[];
    var j := 0;
    while j < |selected|
      invariant j <= |selected|
      invariant Merged(samples, selected[..j], traces)
    {
      assert selected[..j + 1][..j] == selected[..j];
      ghost var was := samples;
      samples := Enter(samples, selected[j].value, traces);
      MergeOne(was, samples, selected[..j + 1], traces);
      j := j + 1;
    }
    assert selected[..j] == selected;
  }

  /** The loop's body: add to an occupied entry, else fill the vacant one if the
      trace is stored. */
  method Enter(samples: map<TraceHash, SampledTrace>, tc: TraceCount, traces: Traces) returns (r: map<TraceHash, SampledTrace>)
    ensures Entered(samples, r, tc, traces)
  {
    var h := tc.traceHash;
    r := samples;
    if h in r {
      r := r[h := SampledTrace(r[h].count + tc.count, r[h].trace)];
    } else if h in traces {
      r := r[h := SampledTrace(tc.count, traces[h])];
    }
  }

  // ------------------------------------------------------------------ proofs

  lemma {:induction false} OccursStep(events: seq<Event>, h: TraceHash)
    requires |events| > 0
    ensures Occurs(events, h) <==> Occurs(events[..|events| - 1], h) || events[|events| - 1].value.traceHash == h
  {
    var most := events[..|events| - 1];
    if Occurs(events, h) {
      var i :| 0 <= i < |events| && events[i].value.traceHash == h;
      if i < |most| {
        assert most[i] == events[i];
      }
    }
    if Occurs(most, h) {
      var i :| 0 <= i < |most| && most[i].value.traceHash == h;
      assert events[i] == most[i];
    }
  }

  /** A trace that does not occur has no count. */
  lemma {:induction false} AbsentCount(events: seq<Event>, h: TraceHash)
    requires !Occurs(events, h)
    ensures HashCount(events, h) == 0
    decreases |events|
  {
    if |events| > 0 {
      OccursStep(events, h);
      AbsentCount(events[..|events| - 1], h);
    }
  }

  /** What the entry of one event does: other entries stay, its own gains its count. */
  ghost predicate Entered(was: map<TraceHash, SampledTrace>, r: map<TraceHash, SampledTrace>, v: TraceCount, traces: Traces) {
    var h := v.traceHash;
    if h in was then r == was[h := SampledTrace(was[h].count + v.count, was[h].trace)]
    else if h in traces then r == was[h := SampledTrace(v.count, traces[h])]
    else r == was
  }

  lemma {:induction false} MergeOne(was: map<TraceHash, SampledTrace>, r: map<TraceHash, SampledTrace>, events: seq<Event>, traces: Traces)
    requires |events| > 0 && Merged(was, events[..|events| - 1], traces)
    requires Entered(was, r, events[|events| - 1].value, traces)
    ensures Merged(r, events, traces)
  {
    var most := events[..|events| - 1];
    forall h ensures h in r <==> h in traces && Occurs(events, h) {
      OccursStep(events, h);
    }
    forall h | h in r && h in traces ensures r[h] == SampledTrace(HashCount(events, h), traces[h]) {
      OccursStep(events, h);
      if h !in was {
        AbsentCount(most, h);
      }
    }
  }

  /** Merging loses no count of an event whose trace is stored. */
  lemma {:induction false} MergedTotal(r: map<TraceHash, SampledTrace>, events: seq<Event>, traces: Traces)
    requires Merged(r, events, traces)
    ensures SampleTotal(r) == StoredCount(events, traces)
    decreases |events|
  {
    if |events| == 0 {
      assert forall h | h in r :: Occurs(events, h);
      assert r == map[];
    } else {
      var most, v := events[..|events| - 1], events[|events| - 1].value;
      var was := map h | h in traces && Occurs(most, h) :: SampledTrace(HashCount(most, h), traces[h]);
      MergedTotal(was, most, traces);
      MergedIsEntered(was, r, events, traces);
      EnteredTotal(was, r, v, traces);
    }
  }

  lemma {:induction false} MergedIsEntered(was: map<TraceHash, SampledTrace>, r: map<TraceHash, SampledTrace>, events: seq<Event>, traces: Traces)
    requires |events| > 0 && Merged(was, events[..|events| - 1], traces) && Merged(r, events, traces)
    ensures Entered(was, r, events[|events| - 1].value, traces)
  {
    var most, v := events[..|events| - 1], events[|events| - 1].value;
    var h := v.traceHash;
    var expected :=
      if h in was then was[h := SampledTrace(was[h].count + v.count, was[h].trace)]
      else if h in traces then was[h := SampledTrace(v.count, traces[h])]
      else was;
    MergeOne(was, expected, events, traces);
    SameMerged(expected, r, events, traces);
  }

  lemma {:induction false} SameMerged(a: map<TraceHash, SampledTrace>, b: map<TraceHash, SampledTrace>, events: seq<Event>, traces: Traces)
    requires Merged(a, events, traces) && Merged(b, events, traces)
    ensures a == b
  {
    assert forall h :: h in a <==> h in b;
    assert forall h | h in a :: a[h] == b[h];
  }

  lemma {:induction false} EnteredTotal(was: map<TraceHash, SampledTrace>, r: map<TraceHash, SampledTrace>, v: TraceCount, traces: Traces)
    requires Entered(was, r, v, traces) && forall h {:trigger h in was} | h in was :: h in traces
    ensures SampleTotal(r) == SampleTotal(was) + if v.traceHash in traces then v.count else 0
  {
    var h := v.traceHash;
    if h in traces {
      TotalWithout(r, h);
      if h in was {
        TotalWithout(was, h);
      }
      assert r - {h} == was - {h};
      if h !in was {
        assert was - {h} == was;
      }
    }
  }

  /** The total does not depend on the order the entries are taken in. */
  lemma {:induction false} TotalWithout(r: map<TraceHash, SampledTrace>, h: TraceHash)
    requires h in r
    ensures SampleTotal(r) == r[h].count + SampleTotal(r - {h})
    decreases |r|
  {
    var g :| g in r && SampleTotal(r) == r[g].count + SampleTotal(r - {g});
    if g != h {
      TotalWithout(r - {g}, h);
      TotalWithout(r - {h}, g);
      assert r - {g} - {h} == r - {h} - {g};
    }
  }
}
