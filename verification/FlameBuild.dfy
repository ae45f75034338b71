/** `build_flame_graph`: events aggregated under one node per command name, below a
    root, then sorted. */
module FlameBuild {
  import opened Bytes
  import opened Wrappers
  import opened FlameTrie
  import opened FlameSort
  import opened FlameGraph
  import opened FlameView
  import opened StackTraces
  import opened TraceEvents
  import opened EventRange
  import opened EventSamples

  /** How many records `symbolize_frame` returns for a frame. */
  type ChainLength = n: nat | 1 <= n <= U16_RANGE witness 1

  /** A frame as `insert_trace` meets it: abort frames are not symbolized. */
  function StepOf(f: Frame, chain: Frame -> ChainLength): Step {
    Step(f.id, if f.kind.Abort? then 1 else chain(f))
  }

  /** `trace.iter().rev()` */
  function PathOf(trace: seq<Frame>, chain: Frame -> ChainLength): (path: seq<Step>)
    ensures StepsOk(path) && |path| == |trace|
    ensures forall i {:trigger path[i]} | 0 <= i < |path| ::
      var f := trace[|trace| - 1 - i];
      path[i].id == f.id && path[i].chain == if f.kind.Abort? then 1 else chain(f)
  {
    if |trace| == 0 then [] else PathOf(trace[1..], chain) + [StepOf(trace[0], chain)]
  }

  // ------------------------------------------------------------------- spec

  /** The command nodes: their names and, in the same order, their trees. */
  datatype Comms = Comms(names: seq<string>, kids: seq<Tree>)

  /** `new_meta_node(_, n)` */
  function Meta(n: u64): Tree {
    Tree(FrameId(0, n), 0, 0, [])
  }

  ghost predicate CommsOk(c: Comms) {
    && |c.names| == |c.kids| <= U64_MAX
    && forall i {:trigger c.kids[i]} | 0 <= i < |c.kids| ::
         c.kids[i].id == FrameId(0, i) && c.kids[i].skip == 0 && Inv(c.kids[i], 0)
  }

  /** One event with a stored trace. */
  ghost function AddEvent(c: Comms, comm: string, path: seq<Step>, w: nat): (r: Comms)
    requires CommsOk(c) && StepsOk(path) && |c.names| < U64_MAX
    ensures CommsOk(r) && |r.names| <= |c.names| + 1
  {
    var i := IndexOf(c.names, comm);
    if i < |c.names| then
      InsertInv(c.kids[i], 0, path, w);
      InsertHead(c.kids[i], 0, path, w);
      Comms(c.names, c.kids[i := Insert(c.kids[i], 0, path, w)])
    else
      FreshInv(Meta(i));
      InsertInv(Meta(i), 0, path, w);
      InsertHead(Meta(i), 0, path, w);
      Comms(c.names + [comm], c.kids + [Insert(Meta(i), 0, path, w)])
  }

  ghost function Aggregate(events: seq<Event>, traces: Traces, chain: Frame -> ChainLength): (r: Comms)
    requires |events| <= U64_MAX
    ensures CommsOk(r) && |r.names| <= |events|
    decreases |events|
  {
    if |events| == 0 then Comms([], [])
    else
      var most, v := Aggregate(events[..|events| - 1], traces, chain), events[|events| - 1].value;
      if v.traceHash in traces then AddEvent(most, v.comm, PathOf(traces[v.traceHash], chain), v.count) else most
  }

  /** The traces of one command, in order. */
  ghost function CommSamples(events: seq<Event>, traces: Traces, chain: Frame -> ChainLength, name: string): (ss: seq<Sample>)
    ensures SamplesOk(ss)
    decreases |events|
  {
    if |events| == 0 then []
    else
      var most, v := CommSamples(events[..|events| - 1], traces, chain, name), events[|events| - 1].value;
      if v.traceHash in traces && v.comm == name
      then most + [Sample(PathOf(traces[v.traceHash], chain), v.count)] else most
  }

  /** The root before it is sorted. */
  ghost function Unsorted(events: seq<Event>, traces: Traces, chain: Frame -> ChainLength): Tree
    requires |events| <= U64_MAX
  {
    var kids := Aggregate(events, traces, chain).kids;
    Tree(META_ID, 0, WeightChildren(kids), kids)
  }

  // ------------------------------------------------------------------- code

  method BuildFlameGraph(table: EventTable, traces: Traces, chain: Frame -> ChainLength,
                         kind: SampleKind, start: u64, end: u64, ghost events: seq<Event>)
    returns (root: FlameNode)
    requires IsTable(table.store, events) && |events| <= U64_MAX
    ensures root.Valid() && fresh(root.Repr)
    ensures |Selected(events, start, end, kind)| <= U64_MAX
    ensures SortOf(Unsorted(Selected(events, start, end, kind), traces, chain), root.model)
  {
    var selected := TimeRange(table, start, end, kind, events);
    SelectedLength(events, start, end, kind);
    root := AggregateEvents(selected, traces, chain);
    var sum := root.ChildrenWeight();
    root.AddWeight(sum);
    assert root.model == Unsorted(selected, traces, chain);
    root.SortChildren();
  }

  lemma {:induction false} SelectedLength(events: seq<Event>, start: u64, end: u64, kind: SampleKind)
    ensures |Selected(events, start, end, kind)| <= |events|
    decreases |events|
  {
    if |events| > 0 {
      SelectedLength(events[..|events| - 1], start, end, kind);
    }
  }

  /** The aggregation loop, with the command nodes kept below the root-to-be. */
  method AggregateEvents(selected: seq<Event>, traces: Traces, chain: Frame -> ChainLength) returns (root: FlameNode)
    requires |selected| <= U64_MAX
    ensures root.Valid() && fresh(root.Repr)
    ensures root.model == Tree(META_ID, 0, 0, Aggregate(selected, traces, chain).kids)
  {
    root := new FlameNode(META_ID, 0, 0);
    var names: seq<string> := [];
    var j := 0;
    while j < |selected|
      invariant j <= |selected|
      invariant root.Valid() && fresh(root.Repr)
      invariant names == Aggregate(selected[..j], traces, chain).names
      invariant root.model == Tree(META_ID, 0, 0, Aggregate(selected[..j], traces, chain).kids)
    {
      assert selected[..j + 1][..j] == selected[..j];
      var tc := selected[j].value;
      if tc.traceHash in traces {
        ghost var c := Aggregate(selected[..j], traces, chain);
        names := InsertEvent(root, names, tc.comm, PathOf(traces[tc.traceHash], chain), tc.count, c);
      }
      j := j + 1;
    }
    assert selected[..j] == selected;
  }

  /** Finds or creates the command's node, and inserts the trace there. */
  method InsertEvent(root: FlameNode, names: seq<string>, comm: string, path: seq<Step>, w: nat, ghost c: Comms)
    returns (r: seq<string>)
    requires root.Valid() && CommsOk(c) && StepsOk(path) && |c.names| < U64_MAX
    requires names == c.names && root.model == Tree(META_ID, 0, 0, c.kids)
    modifies root.Repr
    ensures root.Valid() && fresh(root.Repr - old(root.Repr))
    ensures r == AddEvent(c, comm, path, w).names
    ensures root.model == Tree(META_ID, 0, 0, AddEvent(c, comm, path, w).kids)
  {
    r := names;
    var i := IndexOf(names, comm);
    if i == |names| {
      AddCommand(root, i, path, w);
      r := r + [comm];
    } else {
      root.InsertBelow(i, 0, path, w);
    }
  }

  /** A new command's meta node, with its first trace. */
  method AddCommand(root: FlameNode, i: u64, path: seq<Step>, w: nat)
    requires root.Valid() && StepsOk(path)
    modifies root.Repr
    ensures root.Valid() && fresh(root.Repr - old(root.Repr)) && Inv(Meta(i), 0)
    ensures root.model == Tree(root.id, root.skip, old(root.weight), old(root.model).kids + [Insert(Meta(i), 0, path, w)])
  {
    var child := new FlameNode(FrameId(0, i), 0, 0);
    FreshInv(Meta(i));
    assert child.model.kids == [];
    child.InsertAt(0, path, w);
    root.Adopt(child);
  }
}
