/** What the finished flame graph shows about the events it was built from. */
module FlameTotals {
  import opened Wrappers
  import opened FlameTrie
  import opened FlameSearch
  import opened FlameSandwich
  import opened FlameSort
  import opened FlameHeavy
  import opened FlameView
  import opened StackTraces
  import opened TraceEvents
  import opened EventRange
  import opened EventSamples
  import opened FlameBuild

  // ---------------------------------------------------------------- commands

  /** Whether some event of the command has a stored trace. */
  ghost predicate CommOccurs(events: seq<Event>, traces: Traces, name: string) {
    exists i {:trigger events[i]} ::
      0 <= i < |events| && events[i].value.traceHash in traces && events[i].value.comm == name
  }

  lemma {:induction false} CommOccursStep(events: seq<Event>, traces: Traces, name: string)
    requires |events| > 0
    ensures
      var v := events[|events| - 1].value;
      CommOccurs(events, traces, name) <==>
        CommOccurs(events[..|events| - 1], traces, name) || (v.traceHash in traces && v.comm == name)
  {
    var most := events[..|events| - 1];
    if CommOccurs(events, traces, name) {
      var i :| 0 <= i < |events| && events[i].value.traceHash in traces && events[i].value.comm == name;
      if i < |most| {
        assert most[i] == events[i];
      }
    }
    if CommOccurs(most, traces, name) {
      var i :| 0 <= i < |most| && most[i].value.traceHash in traces && most[i].value.comm == name;
      assert events[i] == most[i];
    }
  }

  /** There is one node per command that has an event with a stored trace. */
  lemma {:induction false} AggregateNames(events: seq<Event>, traces: Traces, chain: Frame -> ChainLength, name: string)
    requires |events| <= U64_MAX
    ensures NoRepeats(Aggregate(events, traces, chain).names)
    ensures name in Aggregate(events, traces, chain).names <==> CommOccurs(events, traces, name)
    decreases |events|
  {
    if |events| > 0 {
      var most := events[..|events| - 1];
      AggregateNames(most, traces, chain, name);
      CommOccursStep(events, traces, name);
    }
  }

  /** The tree of a command is what inserting its traces, and only its, builds. */
  lemma {:induction false} AggregateTrees(events: seq<Event>, traces: Traces, chain: Frame -> ChainLength, i: nat)
    requires |events| <= U64_MAX && i < |Aggregate(events, traces, chain).names|
    ensures Inv(Meta(i), 0)
    ensures
      var c := Aggregate(events, traces, chain);
      c.kids[i] == Build(Meta(i), CommSamples(events, traces, chain, c.names[i]))
    decreases |events|
  {
    FreshInv(Meta(i));
    var n := |events| - 1;
    var most, v := events[..n], events[n].value;
    var was := Aggregate(most, traces, chain);
    var c := Aggregate(events, traces, chain);
    var ss := CommSamples(events, traces, chain, c.names[i]);
    AggregateNames(most, traces, chain, c.names[i]);
    if i < |was.names| {
      AggregateTrees(most, traces, chain, i);
      if v.traceHash in traces && v.comm == c.names[i] {
        IndexIsFirst(was.names, v.comm, i);
        assert ss[..|ss| - 1] == CommSamples(most, traces, chain, c.names[i]);
      }
    } else {
      NoSamples(most, traces, chain, c.names[i]);
      assert ss[..|ss| - 1] == CommSamples(most, traces, chain, c.names[i]);
    }
  }

  lemma {:induction false} NoSamples(events: seq<Event>, traces: Traces, chain: Frame -> ChainLength, name: string)
    requires !CommOccurs(events, traces, name)
    ensures |CommSamples(events, traces, chain, name)| == 0
    decreases |events|
  {
    if |events| > 0 {
      CommOccursStep(events, traces, name);
      NoSamples(events[..|events| - 1], traces, chain, name);
    }
  }

  // ------------------------------------------------------------------ totals

  /** Total count of the events with a stored trace that has a frame with id `x`. */
  ghost function CountWith(events: seq<Event>, traces: Traces, x: FrameId): nat {
    if |events| == 0 then 0
    else
      var v := events[|events| - 1].value;
      CountWith(events[..|events| - 1], traces, x)
      + if v.traceHash in traces && HasFrame(traces[v.traceHash], x) then v.count else 0
  }

  ghost predicate HasFrame(trace: seq<Frame>, x: FrameId) {
    exists i {:trigger trace[i]} :: 0 <= i < |trace| && trace[i].id == x
  }

  lemma {:induction false} HasAppend(path: seq<Step>, s: Step, x: FrameId)
    ensures Has(path + [s], x) <==> Has(path, x) || s.id == x
    decreases |path|
  {
    if |path| == 0 {
      assert |(path + [s])[1..]| == 0;
    } else {
      assert (path + [s])[1..] == path[1..] + [s];
      HasAppend(path[1..], s, x);
    }
  }

  lemma {:induction false} HasPathOf(trace: seq<Frame>, chain: Frame -> ChainLength, x: FrameId)
    ensures Has(PathOf(trace, chain), x) <==> HasFrame(trace, x)
    decreases |trace|
  {
    if |trace| > 0 {
      HasPathOf(trace[1..], chain, x);
      HasAppend(PathOf(trace[1..], chain), StepOf(trace[0], chain), x);
      if HasFrame(trace, x) {
        var i :| 0 <= i < |trace| && trace[i].id == x;
        if i > 0 {
          assert trace[1..][i - 1] == trace[i];
        }
      }
      if HasFrame(trace[1..], x) {
        var i :| 0 <= i < |trace[1..]| && trace[1..][i].id == x;
        assert trace[i + 1] == trace[1..][i];
      }
    }
  }

  /** One event changes both sums over the command nodes by its count. */
  lemma {:induction false} AddEventSums(c: Comms, comm: string, path: seq<Step>, w: nat, x: FrameId)
    requires CommsOk(c) && StepsOk(path) && |c.names| < U64_MAX && x.fileId != 0
    ensures WeightChildren(AddEvent(c, comm, path, w).kids) == WeightChildren(c.kids) + w
    ensures TopSums(AddEvent(c, comm, path, w).kids, x) == TopSums(c.kids, x) + if Has(path, x) then w else 0
  {
    var i, r := IndexOf(c.names, comm), AddEvent(c, comm, path, w);
    var t := if i < |c.names| then c.kids[i] else Meta(i);
    FreshInv(Meta(i));
    InsertHead(t, 0, path, w);
    TopSumInsert(t, 0, path, w, x);
    if i < |c.names| {
      WeightUpdate(c.kids, i, r.kids[i]);
      TopSumsUpdate(c.kids, i, r.kids[i], x);
    } else {
      WeightAppend(c.kids, r.kids[i]);
      TopSumsAppend(c.kids, r.kids[i], x);
    }
  }

  lemma {:induction false} AggregateSums(events: seq<Event>, traces: Traces, chain: Frame -> ChainLength, x: FrameId)
    requires |events| <= U64_MAX && x.fileId != 0
    ensures
      var kids := Aggregate(events, traces, chain).kids;
      WeightChildren(kids) == StoredCount(events, traces) && TopSums(kids, x) == CountWith(events, traces, x)
    decreases |events|
  {
    if |events| > 0 {
      var most, v := events[..|events| - 1], events[|events| - 1].value;
      AggregateSums(most, traces, chain, x);
      if v.traceHash in traces {
        AddEventSums(Aggregate(most, traces, chain), v.comm, PathOf(traces[v.traceHash], chain), v.count, x);
        HasPathOf(traces[v.traceHash], chain, x);
      }
    }
  }

  lemma {:induction false} UnsortedInv(events: seq<Event>, traces: Traces, chain: Frame -> ChainLength)
    requires |events| <= U64_MAX
    ensures Inv(Unsorted(events, traces, chain), 0)
  {
    var t := Unsorted(events, traces, chain);
    forall i | 0 <= i < |t.kids| ensures t.kids[i].id == FrameId(0, i) && Inv(t.kids[i], t.kids[i].skip) {
      assert CommsOk(Aggregate(events, traces, chain));
    }
  }

  // ----------------------------------------------------------------- results

  /** Build and search end to end, on the graph as shown: its root weighs what its
      command nodes weigh, which is the total count of the events whose trace is
      stored; and the topmost occurrences of any frame weigh the total count of the
      events whose trace contains it. No node weighs less than its children. */
  lemma {:induction false} GraphExact(t: Tree, events: seq<Event>, traces: Traces, chain: Frame -> ChainLength, x: FrameId)
    requires |events| <= U64_MAX && x.fileId != 0
    requires SortOf(Unsorted(events, traces, chain), t)
    ensures Inv(t, 0) && OrderedTree(t) && Heavy(t)
    ensures t.id == FrameId(0, 0) && t.skip == 0
    ensures t.weight == WeightChildren(t.kids) == StoredCount(events, traces)
    ensures TopSum(t, x) == CountWith(events, traces, x)
  {
    var u := Unsorted(events, traces, chain);
    UnsortedInv(events, traces, chain);
    SortKeepsInv(u, t, 0);
    InvHeavy(t, 0);
    SortOrders(u, t);
    SortKeepsWeights(u, t, [], x);
    AggregateSums(events, traces, chain, x);
  }

  /** At every path below a command stands the total count of the command's events
      whose trace starts with it. */
  lemma {:induction false} CommandExact(t: Tree, events: seq<Event>, traces: Traces, chain: Frame -> ChainLength, i: nat, p: seq<FrameId>)
    requires |events| <= U64_MAX && i < |Aggregate(events, traces, chain).names|
    requires SortOf(Unsorted(events, traces, chain), t)
    ensures Inv(t, 0)
    ensures
      var ss := CommSamples(events, traces, chain, Aggregate(events, traces, chain).names[i]);
      var r := Reach(t, 0, [FrameId(0, i)] + p);
      && (r.Some? <==> |p| == 0 || SomePrefix(ss, p))
      && WeightOf(r) == PrefixTotal(ss, p) && SelfOf(r) == PathTotal(ss, p)
  {
    var u, c := Unsorted(events, traces, chain), Aggregate(events, traces, chain);
    var q := [FrameId(0, i)] + p;
    assert q[1..] == p;
    UnsortedInv(events, traces, chain);
    SortKeepsInv(u, t, 0);
    SortKeepsPaths(u, t, 0, q);
    assert CommsOk(c) && c.kids[i].id == FrameId(0, i);
    FindUnique(u.kids, FrameId(0, i), i);
    AggregateTrees(events, traces, chain, i);
    BuildIsTrie(Meta(i), CommSamples(events, traces, chain, c.names[i]), p);
  }

  lemma {:induction false} InvDistinct(t: Tree, k: nat)
    requires Inv(t, k)
    ensures AllDistinct(t.kids)
    decreases t
  {
    forall i | 0 <= i < |t.kids| ensures AllDistinct(t.kids[i].kids) {
      InvDistinct(t.kids[i], if k > 0 then k - 1 else t.kids[i].skip);
    }
  }

  /** The graph shown is determined by the events: neither the order in which the
      hash map hands out the command nodes nor the unstable sort leaves any choice. */
  lemma {:induction false} GraphUnique(a: Tree, b: Tree, arrival: seq<nat>, u: Tree, events: seq<Event>, traces: Traces, chain: Frame -> ChainLength)
    requires |events| <= U64_MAX
    requires
      var t := Unsorted(events, traces, chain);
      && IsPerm(arrival, |t.kids|) && |arrival| == |t.kids| == |u.kids|
      && u.id == t.id && u.skip == t.skip && u.weight == t.weight
      && (forall i {:trigger arrival[i]} | 0 <= i < |arrival| :: arrival[i] < |t.kids|)
      && (forall i {:trigger u.kids[i]} | 0 <= i < |u.kids| :: u.kids[i] == t.kids[arrival[i]])
    requires SortOf(Unsorted(events, traces, chain), a) && SortOf(u, b)
    ensures a == b
  {
    var t := Unsorted(events, traces, chain);
    SortAnyArrival(t, arrival, u, b);
    UnsortedInv(events, traces, chain);
    InvDistinct(t, 0);
    SortUnique(t, a, b);
  }

  /** The flame graph and the merged samples of the same events total the same. */
  lemma {:induction false} Conservation(t: Tree, samples: map<TraceHash, SampledTrace>, events: seq<Event>, traces: Traces, chain: Frame -> ChainLength)
    requires |events| <= U64_MAX
    requires SortOf(Unsorted(events, traces, chain), t) && Merged(samples, events, traces)
    ensures t.weight == WeightChildren(t.kids) == SampleTotal(samples) == StoredCount(events, traces)
  {
    GraphExact(t, events, traces, chain, FrameId(1, 0));
    MergedTotal(samples, events, traces);
  }

  /** The sandwich view of a frame accounts for every event whose trace contains it. */
  lemma {:induction false} SandwichAccounts(t: Tree, events: seq<Event>, traces: Traces, chain: Frame -> ChainLength,
                                            frame: FrameId, callers: Tree, callees: Tree, q: seq<FrameId>)
    returns (os: seq<Occurrence>)
    requires |events| <= U64_MAX && frame.fileId != 0
    requires SortOf(Unsorted(events, traces, chain), t) && IsSandwich(t, frame, callers, callees)
    ensures OccWeight(os) == CountWith(events, traces, frame)
    ensures Inv(callers, 0) && WeightOf(Reach(callers, 0, q)) == CallerTotal(os, q)
    ensures PathWeight(callees.kids, q) == CalleeTotal(os, q)
    ensures Heavy(callers) && Heavy(callees)
  {
    os := SandwichExact(t, frame, callers, callees, q);
    GraphExact(t, events, traces, chain, frame);
  }
}
