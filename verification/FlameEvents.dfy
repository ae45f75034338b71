/** The sandwich view in terms of events: what each event whose trace contains the frame
    contributes to the callers and callees that are shown. */
module FlameEvents {
  import opened Bytes
  import opened Wrappers
  import opened FlameTrie
  import opened FlameSearch
  import opened FlameSandwich
  import opened FlameSort
  import opened FlameTrails
  import opened FlameChains
  import opened FlameView
  import opened StackTraces
  import opened TraceEvents
  import opened EventRange
  import opened EventSamples
  import opened FlameBuild
  import opened FlameTotals
  import opened FlameCommands

  /** From position `k` on, every id as often as `len` says for the ids up to it. */
  ghost function Repeated(len: seq<FrameId> -> nat, ids: seq<FrameId>, k: nat): seq<FrameId>
    requires k <= |ids|
    decreases |ids| - k
  {
    if k == |ids| then [] else Copies(ids[k], len(ids[..k + 1])) + Repeated(len, ids, k + 1)
  }

  /** Ids of the nodes an event stands for: its command's meta node, whose number is the
      command's position among all, and each of its frames as often as the frame had
      records in the first event of the command with the same frames up to it. */
  ghost function EventTrail(events: seq<Event>, traces: Traces, chain: Frame -> ChainLength): TraceCount -> seq<FrameId>
    requires |events| <= U64_MAX
  {
    (v: TraceCount) =>
      if v.traceHash !in traces then [] else
      [FrameId(0, IndexOf(Commands(events, traces), v.comm))]
      + Repeated(p => FirstRecords(events, traces, chain, v.comm, p), TraceIds(traces[v.traceHash]), 0)
  }

  /** Whether the ids above the first `x`, read upwards and without (0, 0), start with
      `q`. A frame with nothing above it has no callers. */
  ghost predicate CalledBy(ids: seq<FrameId>, x: FrameId, q: seq<FrameId>) {
    var i := IndexOf(ids, x);
    i < |ids| && StartsAbove(Kept(ids[..i]), q)
  }

  /** Whether `q`, which is not empty, stands right below the first `x`. */
  ghost predicate Calls(ids: seq<FrameId>, x: FrameId, q: seq<FrameId>) {
    var i := IndexOf(ids, x);
    i < |ids| && 0 < |q| <= |ids| - i - 1 && q == ids[i + 1..i + 1 + |q|]
  }

  /** Total count of the events whose trail has `q` next above its first `x`. */
  ghost function CallerEvents(events: seq<Event>, trail: TraceCount -> seq<FrameId>, x: FrameId, q: seq<FrameId>): nat {
    if |events| == 0 then 0
    else
      var v := events[|events| - 1].value;
      CallerEvents(events[..|events| - 1], trail, x, q) + If(CalledBy(trail(v), x, q), v.count)
  }

  /** Total count of the events whose trail has `q` next below its first `x`. */
  ghost function CalleeEvents(events: seq<Event>, trail: TraceCount -> seq<FrameId>, x: FrameId, q: seq<FrameId>): nat {
    if |events| == 0 then 0
    else
      var v := events[|events| - 1].value;
      CalleeEvents(events[..|events| - 1], trail, x, q) + If(Calls(trail(v), x, q), v.count)
  }

  /** The search along a trail stops at the first `x`, with what it kept of those above. */
  lemma {:induction false} HitAtFirst(ids: seq<FrameId>, x: FrameId, above: seq<FrameId>, q: seq<FrameId>)
    ensures CallerHit(ids, x, above, q) <==> IndexOf(ids, x) < |ids| && StartsAbove(above + Kept(ids[..IndexOf(ids, x)]), q)
    ensures CalleeHit(ids, x, q) <==> Calls(ids, x, q)
    decreases |ids|
  {
    if |ids| > 0 && ids[0] == x {
      assert IndexOf(ids, x) == 0 && above + Kept(ids[..0]) == above;
      BelowFirst(ids, q);
    } else if |ids| > 0 {
      HitAtFirst(ids[1..], x, Above(above, ids[0]), q);
      CallsLater(ids, x, q);
      if x in ids {
        KeptLater(ids, IndexOf(ids, x), above);
      }
    }
  }

  lemma {:induction false} CallsLater(ids: seq<FrameId>, x: FrameId, q: seq<FrameId>)
    requires |ids| > 0 && ids[0] != x
    ensures Calls(ids, x, q) <==> Calls(ids[1..], x, q)
  {
    var i := IndexOf(ids, x);
    assert i == 1 + IndexOf(ids[1..], x);
    if i + 1 + |q| <= |ids| {
      assert ids[1..][i..i + |q|] == ids[i + 1..i + 1 + |q|];
    }
  }

  lemma {:induction false} KeptLater(ids: seq<FrameId>, i: nat, above: seq<FrameId>)
    requires 0 < i <= |ids|
    ensures above + Kept(ids[..i]) == Above(above, ids[0]) + Kept(ids[1..][..i - 1])
  {
    assert ids[..i][1..] == ids[1..][..i - 1];
    KeptFirst(ids[..i], above);
  }

  lemma {:induction false} BelowFirst(ids: seq<FrameId>, q: seq<FrameId>)
    requires |ids| > 0
    ensures PrefixHit(ids[1..], q) <==> 0 < |q| <= |ids| - 1 && q == ids[1..1 + |q|]
  {
    if |q| <= |ids| - 1 {
      assert ids[1..][..|q|] == ids[1..1 + |q|];
    }
  }

  lemma {:induction false} KeptFirst(ids: seq<FrameId>, above: seq<FrameId>)
    requires |ids| > 0
    ensures above + Kept(ids) == Above(above, ids[0]) + Kept(ids[1..])
  {
    if ids[0] != FrameId(0, 0) {
      assert above + ([ids[0]] + Kept(ids[1..])) == (above + [ids[0]]) + Kept(ids[1..]);
    } else {
      assert above + ([] + Kept(ids[1..])) == above + Kept(ids[1..]);
    }
  }

  // ------------------------------------------------------- walks in the graph

  /** The same trails, as walks through the command nodes. */
  ghost function WalkIn(c: Comms, traces: Traces, chain: Frame -> ChainLength): TraceCount -> seq<FrameId>
    requires CommsOk(c)
  {
    (v: TraceCount) =>
      if v.traceHash !in traces || IndexOf(c.names, v.comm) == |c.names| then []
      else Walk(c.kids[IndexOf(c.names, v.comm)], 0, PathOf(traces[v.traceHash], chain))
  }

  ghost predicate KnownIn(c: Comms, comm: string, path: seq<Step>)
    requires CommsOk(c) && StepsOk(path)
  {
    var i := IndexOf(c.names, comm);
    i < |c.names| && Knows(c.kids[i], 0, path)
  }

  lemma {:induction false} IndexStays(names: seq<string>, n: string, comm: string)
    requires comm in names
    ensures IndexOf(names + [n], comm) == IndexOf(names, comm)
  {
    IndexIsFirst(names + [n], comm, IndexOf(names, comm));
  }

  /** An event makes its path known, and walks over what is known from then on. */
  lemma {:induction false} AddEventKnows(c: Comms, comm: string, path: seq<Step>, w: nat)
    requires CommsOk(c) && StepsOk(path) && |c.names| < U64_MAX
    ensures KnownIn(AddEvent(c, comm, path, w), comm, path)
    ensures
      var i, r := IndexOf(c.names, comm), AddEvent(c, comm, path, w);
      && IndexOf(r.names, comm) == i && Inv(Meta(i), 0)
      && Walk(r.kids[i], 0, path) == Walk(if i < |c.names| then c.kids[i] else Meta(i), 0, path)
  {
    var i := IndexOf(c.names, comm);
    var t := if i < |c.names| then c.kids[i] else Meta(i);
    FreshInv(Meta(i));
    InsertInv(t, 0, path, w);
    InsertKnows(t, 0, path, w);
    if i == |c.names| {
      IndexIsFirst(c.names + [comm], comm, i);
    }
  }

  /** It leaves the walks of known paths alone. */
  lemma {:induction false} AddEventStays(c: Comms, comm: string, path: seq<Step>, w: nat, other: string, known: seq<Step>)
    requires CommsOk(c) && StepsOk(path) && |c.names| < U64_MAX && StepsOk(known) && KnownIn(c, other, known)
    ensures KnownIn(AddEvent(c, comm, path, w), other, known)
    ensures
      var i, r := IndexOf(c.names, other), AddEvent(c, comm, path, w);
      IndexOf(r.names, other) == i && Walk(r.kids[i], 0, known) == Walk(c.kids[i], 0, known)
  {
    var i := IndexOf(c.names, other);
    if IndexOf(c.names, comm) == |c.names| {
      IndexStays(c.names, comm, other);
    } else if comm == other {
      InsertInv(c.kids[i], 0, path, w);
      KnownStays(c.kids[i], 0, known, path, w);
    }
  }

  /** One event changes both sums over the command nodes iff its walk hits. */
  lemma {:induction false} AddEventHits(c: Comms, comm: string, path: seq<Step>, w: nat, x: FrameId, q: seq<FrameId>)
    requires CommsOk(c) && StepsOk(path) && |c.names| < U64_MAX
    ensures
      var i, r := IndexOf(c.names, comm), AddEvent(c, comm, path, w);
      && Inv(Meta(i), 0)
      && var ids := Walk(if i < |c.names| then c.kids[i] else Meta(i), 0, path);
         && CallerSums(r.kids, x, [], q) == CallerSums(c.kids, x, [], q) + If(CallerHit(ids, x, [], q), w)
         && CalleeSums(r.kids, x, q) == CalleeSums(c.kids, x, q) + If(CalleeHit(ids, x, q), w)
  {
    var i, r := IndexOf(c.names, comm), AddEvent(c, comm, path, w);
    var t := if i < |c.names| then c.kids[i] else Meta(i);
    FreshInv(Meta(i));
    InsertHits(t, 0, path, w, x, [], q);
    HitSums(c.kids, x, [], q);
    HitSums(r.kids, x, [], q);
    if i < |c.names| {
      TreeSumUpdate(CallerFn(x, [], q), c.kids, i, r.kids[i]);
      TreeSumUpdate(CalleeFn(x, q), c.kids, i, r.kids[i]);
    } else {
      FreshSums(i, x, q);
      TreeSumAppend(CallerFn(x, [], q), c.kids, r.kids[i]);
      TreeSumAppend(CalleeFn(x, q), c.kids, r.kids[i]);
    }
  }

  lemma {:induction false} FreshSums(i: u64, x: FrameId, q: seq<FrameId>)
    ensures CallerSum(Meta(i), x, [], q) == 0 && CalleeSum(Meta(i), x, q) == 0
  {
    assert |Meta(i).kids| == 0 && PathWeight(Meta(i).kids, q) == 0;
  }

  /** Sums over events only depend on the trails of these. */
  lemma {:induction false} SameTrails(events: seq<Event>, f: TraceCount -> seq<FrameId>, g: TraceCount -> seq<FrameId>, x: FrameId, q: seq<FrameId>)
    requires forall i {:trigger events[i]} | 0 <= i < |events| :: f(events[i].value) == g(events[i].value)
    ensures CallerEvents(events, f, x, q) == CallerEvents(events, g, x, q)
    ensures CalleeEvents(events, f, x, q) == CalleeEvents(events, g, x, q)
    decreases |events|
  {
    if |events| > 0 {
      var most := events[..|events| - 1];
      forall i | 0 <= i < |most| ensures f(most[i].value) == g(most[i].value) {
        assert most[i] == events[i];
      }
      SameTrails(most, f, g, x, q);
    }
  }

  lemma {:induction false} EventKnown(events: seq<Event>, traces: Traces, chain: Frame -> ChainLength, i: nat)
    requires |events| <= U64_MAX && i < |events| && events[i].value.traceHash in traces
    ensures KnownIn(Aggregate(events, traces, chain), events[i].value.comm, PathOf(traces[events[i].value.traceHash], chain))
    decreases |events|
  {
    var n := |events| - 1;
    var most, v := events[..n], events[n].value;
    if i < n {
      assert most[i] == events[i];
      EventKnown(most, traces, chain, i);
    }
    if v.traceHash in traces {
      var c, path := Aggregate(most, traces, chain), PathOf(traces[v.traceHash], chain);
      if i < n {
        AddEventStays(c, v.comm, path, v.count, events[i].value.comm, PathOf(traces[events[i].value.traceHash], chain));
      } else {
        AddEventKnows(c, v.comm, path, v.count);
      }
    }
  }

  /** One more event leaves the walks of those before it alone. */
  lemma {:induction false} WalksStay(most: seq<Event>, traces: Traces, chain: Frame -> ChainLength, comm: string, path: seq<Step>, w: nat, x: FrameId, q: seq<FrameId>)
    requires |most| < U64_MAX && StepsOk(path)
    ensures
      var c := Aggregate(most, traces, chain);
      var f, g := WalkIn(c, traces, chain), WalkIn(AddEvent(c, comm, path, w), traces, chain);
      && CallerEvents(most, f, x, q) == CallerEvents(most, g, x, q)
      && CalleeEvents(most, f, x, q) == CalleeEvents(most, g, x, q)
  {
    var c := Aggregate(most, traces, chain);
    var f, g := WalkIn(c, traces, chain), WalkIn(AddEvent(c, comm, path, w), traces, chain);
    forall i | 0 <= i < |most| ensures f(most[i].value) == g(most[i].value) {
      var v := most[i].value;
      if v.traceHash in traces {
        EventKnown(most, traces, chain, i);
        AddEventStays(c, comm, path, w, v.comm, PathOf(traces[v.traceHash], chain));
      }
    }
    SameTrails(most, f, g, x, q);
  }

  lemma {:induction false} AddEventCounts(c: Comms, v: TraceCount, traces: Traces, chain: Frame -> ChainLength, x: FrameId, q: seq<FrameId>)
    requires CommsOk(c) && |c.names| < U64_MAX && v.traceHash in traces
    ensures
      var r := AddEvent(c, v.comm, PathOf(traces[v.traceHash], chain), v.count);
      var ids := WalkIn(r, traces, chain)(v);
      && CallerSums(r.kids, x, [], q) == CallerSums(c.kids, x, [], q) + If(CalledBy(ids, x, q), v.count)
      && CalleeSums(r.kids, x, q) == CalleeSums(c.kids, x, q) + If(Calls(ids, x, q), v.count)
  {
    var path := PathOf(traces[v.traceHash], chain);
    AddEventHits(c, v.comm, path, v.count, x, q);
    AddEventKnows(c, v.comm, path, v.count);
    FromTop(WalkIn(AddEvent(c, v.comm, path, v.count), traces, chain)(v), x, q);
  }

  lemma {:induction false} FromTop(ids: seq<FrameId>, x: FrameId, q: seq<FrameId>)
    ensures CallerHit(ids, x, [], q) <==> CalledBy(ids, x, q)
    ensures CalleeHit(ids, x, q) <==> Calls(ids, x, q)
  {
    HitAtFirst(ids, x, [], q);
    var i := IndexOf(ids, x);
    if i < |ids| {
      assert [] + Kept(ids[..i]) == Kept(ids[..i]);
    }
  }

  /** Over the command nodes both sums are the total counts of the events whose walk
      through them hits. */
  lemma {:induction false} AggregateHits(events: seq<Event>, traces: Traces, chain: Frame -> ChainLength, x: FrameId, q: seq<FrameId>)
    requires |events| <= U64_MAX
    ensures
      var c := Aggregate(events, traces, chain);
      && CallerSums(c.kids, x, [], q) == CallerEvents(events, WalkIn(c, traces, chain), x, q)
      && CalleeSums(c.kids, x, q) == CalleeEvents(events, WalkIn(c, traces, chain), x, q)
    decreases |events|
  {
    if |events| > 0 {
      var most, v := events[..|events| - 1], events[|events| - 1].value;
      var was := Aggregate(most, traces, chain);
      AggregateHits(most, traces, chain, x, q);
      if v.traceHash in traces {
        AddEventCounts(was, v, traces, chain, x, q);
        WalksStay(most, traces, chain, v.comm, PathOf(traces[v.traceHash], chain), v.count, x, q);
      }
    }
  }

  // ------------------------------------------------------- walks and events

  /** The walk of an event is its trail: chains are as long as in the first event. */
  lemma {:induction false} WalkIsTrail(events: seq<Event>, traces: Traces, chain: Frame -> ChainLength, i: nat)
    requires |events| <= U64_MAX && i < |events|
    ensures WalkIn(Aggregate(events, traces, chain), traces, chain)(events[i].value) == EventTrail(events, traces, chain)(events[i].value)
  {
    var c, v := Aggregate(events, traces, chain), events[i].value;
    AggregateCommands(events, traces, chain);
    if v.traceHash in traces {
      EventKnown(events, traces, chain, i);
      var k, trace := IndexOf(c.names, v.comm), traces[v.traceHash];
      AggregateTrees(events, traces, chain, k);
      WalkOfTrace(Meta(k), events, traces, chain, v.comm, trace);
    }
  }

  lemma {:induction false} WalkOfTrace(t: Tree, events: seq<Event>, traces: Traces, chain: Frame -> ChainLength, name: string, trace: seq<Frame>)
    requires IsFresh(t) && Inv(t, 0) && Knows(Build(t, CommSamples(events, traces, chain, name)), 0, PathOf(trace, chain))
    ensures Walk(Build(t, CommSamples(events, traces, chain, name)), 0, PathOf(trace, chain)) ==
      [t.id] + Repeated(p => FirstRecords(events, traces, chain, name, p), TraceIds(trace), 0)
  {
    var ss, len := CommSamples(events, traces, chain, name), (p: seq<FrameId>) => FirstRecords(events, traces, chain, name, p);
    forall p ensures len(p) == FirstChain(ss, p) {
      FirstSampleIsFirst(events, traces, chain, name, p);
    }
    FirstNodes(t, ss, PathOf(trace, chain), len);
    NodesAreRepeated(len, PathOf(trace, chain), TraceIds(trace), 0);
  }

  lemma {:induction false} FirstNodes(t: Tree, ss: seq<Sample>, path: seq<Step>, len: seq<FrameId> -> nat)
    requires IsFresh(t) && Inv(t, 0) && SamplesOk(ss) && StepsOk(path) && Knows(Build(t, ss), 0, path)
    requires forall p {:trigger len(p)} :: len(p) == FirstChain(ss, p)
    ensures Walk(Build(t, ss), 0, path) == [t.id] + Nodes(len, [], path)
  {
    var r := Build(t, ss);
    forall p | |p| > 0 ensures ChainOf(r, 0, p) == len([] + p) {
      BuildChains(t, ss, p);
      assert [] + p == p;
    }
    WalkIsNodes(r, 0, path, len, []);
    BuildHead(t, ss);
    assert Copies(t.id, 1) == [t.id];
  }

  lemma {:induction false} NodesAreRepeated(len: seq<FrameId> -> nat, path: seq<Step>, ids: seq<FrameId>, k: nat)
    requires k <= |ids| && |path| == |ids| - k
    requires forall i {:trigger path[i]} | 0 <= i < |path| :: path[i].id == ids[k + i]
    ensures Nodes(len, ids[..k], path) == Repeated(len, ids, k)
    decreases |path|
  {
    if |path| > 0 {
      assert path[0].id == ids[k] && ids[..k] + [ids[k]] == ids[..k + 1];
      forall i | 0 <= i < |path[1..]| ensures path[1..][i].id == ids[k + 1 + i] {
        assert path[1..][i] == path[i + 1];
      }
      NodesAreRepeated(len, path[1..], ids, k + 1);
    }
  }

  lemma {:induction false} BuildHead(t: Tree, ss: seq<Sample>)
    requires Inv(t, 0) && SamplesOk(ss)
    ensures Build(t, ss).id == t.id
    decreases |ss|
  {
    if |ss| > 0 {
      BuildHead(t, ss[..|ss| - 1]);
    }
  }

  // ------------------------------------------------------------------ result

  /** The finished sandwich view of a frame, path by path: at `q` in the callers stands
      the total count of the events whose trail has `q` next above the frame's first
      occurrence, and in the callees of those that have `q` next below it. */
  lemma {:induction false} SandwichByEvents(t: Tree, events: seq<Event>, traces: Traces, chain: Frame -> ChainLength,
                                            frame: FrameId, callers: Tree, callees: Tree, q: seq<FrameId>)
    requires |events| <= U64_MAX && frame != FrameId(0, 0)
    requires SortOf(Unsorted(events, traces, chain), t) && IsSandwich(t, frame, callers, callees)
    ensures Inv(callers, 0)
    ensures
      var trail := EventTrail(events, traces, chain);
      && WeightOf(Reach(callers, 0, q)) == CallerEvents(events, trail, frame, q)
      && PathWeight(callees.kids, q) == CalleeEvents(events, trail, frame, q)
  {
    var u, c := Unsorted(events, traces, chain), Aggregate(events, traces, chain);
    var os := SandwichExact(t, frame, callers, callees, q);
    var none: seq<FrameId> :| |none| == 0 && os == Occurrences(t, frame, none);
    assert none == [];
    TotalsAreSums(t, frame, none, q);
    SortKeepsHits(u, t, frame, none, q);
    AggregateHits(events, traces, chain, frame, q);
    assert Above(none, META_ID) == [];
    var walk, trail := WalkIn(c, traces, chain), EventTrail(events, traces, chain);
    forall i | 0 <= i < |events| ensures walk(events[i].value) == trail(events[i].value) {
      WalkIsTrail(events, traces, chain, i);
    }
    SameTrails(events, walk, trail, frame, q);
  }
}
