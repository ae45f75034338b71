/** The sandwich view of a flame graph: the recursive search with its path stack, and
    the two tries it fills in place. */
module FlameView {
  import opened FlameTrie
  import opened FlameSearch
  import opened FlameSandwich
  import opened FlameHeavy
  import opened FlamePaths
  import opened FlameSort
  import opened FlameTrails
  import opened FlameGraph

  /** `path_above: &mut Vec<...>` */
  class PathStack {
    var items: seq<FrameId>

    constructor ()
      ensures |items| == 0
    {
      items := [];
    }
  }

  /** Both tries, disjoint from each other and from the graph that is searched. */
  ghost predicate Apart(node: FlameNode, callers: FlameNode, callees: FlameNode)
    reads node, node.Repr, callers, callers.Repr, callees, callees.Repr
  {
    && node.Valid() && callers.Valid() && callees.Valid()
    && node.Repr !! callers.Repr && node.Repr !! callees.Repr && callers.Repr !! callees.Repr
  }

  /** `collect_paths_through_frame`: every topmost node with the target's id is folded
      into both tries, and the path stack is left as it was found. */
  method CollectPaths(node: FlameNode, target: FrameId, path: PathStack, callers: FlameNode, callees: FlameNode)
    requires Apart(node, callers, callees)
    modifies path, callers.Repr, callees.Repr
    ensures Apart(node, callers, callees)
    ensures fresh(callers.Repr - old(callers.Repr)) && fresh(callees.Repr - old(callees.Repr))
    ensures path.items == old(path.items)
    ensures callers.model == AddCallers(old(callers.model), Occurrences(node.model, target, old(path.items)))
    ensures callees.model == AddCallees(old(callees.model), Occurrences(node.model, target, old(path.items)))
    decreases node.Repr, 1
  {
    if node.id == target {
      FoldOccurrence(node, path, callers, callees);
      AddOne(old(callers.model), old(callees.model), Occurrence(path.items, node.model));
    } else {
      var isRootFrame := IsRootId(node.id);
      if !isRootFrame {
        path.items := path.items + [node.id];
      }
      CollectChildren(node, target, path, callers, callees);
      if !isRootFrame {
        path.items := path.items[..|path.items| - 1];
      }
    }
  }

  method CollectChildren(node: FlameNode, target: FrameId, path: PathStack, callers: FlameNode, callees: FlameNode)
    requires Apart(node, callers, callees)
    modifies path, callers.Repr, callees.Repr
    ensures Apart(node, callers, callees)
    ensures fresh(callers.Repr - old(callers.Repr)) && fresh(callees.Repr - old(callees.Repr))
    ensures path.items == old(path.items)
    ensures callers.model == AddCallers(old(callers.model), OccurrencesIn(node.model.kids, target, old(path.items)))
    ensures callees.model == AddCallees(old(callees.model), OccurrencesIn(node.model.kids, target, old(path.items)))
    decreases node.Repr, 0
  {
    ghost var above, up, down := path.items, callers.model, callees.model;
    var g := 0;
    while g < |node.children|
      invariant g <= |node.children| == |node.model.kids|
      invariant Apart(node, callers, callees)
      invariant fresh(callers.Repr - old(callers.Repr)) && fresh(callees.Repr - old(callees.Repr))
      invariant path.items == above
      invariant callers.model == AddCallers(up, OccurrencesIn(node.model.kids[..g], target, above))
      invariant callees.model == AddCallees(down, OccurrencesIn(node.model.kids[..g], target, above))
    {
      assert node.children[g].model == node.model.kids[g];
      CollectPaths(node.children[g], target, path, callers, callees);
      NextChild(node.model.kids, g, target, above, up, down);
      g := g + 1;
    }
    assert node.model.kids[..g] == node.model.kids;
  }

  lemma {:induction false} NextChild(kids: seq<Tree>, g: nat, x: FrameId, above: seq<FrameId>, up: Tree, down: Tree)
    requires g < |kids|
    ensures AddCallers(up, OccurrencesIn(kids[..g + 1], x, above)) ==
            AddCallers(AddCallers(up, OccurrencesIn(kids[..g], x, above)), Occurrences(kids[g], x, above))
    ensures AddCallees(down, OccurrencesIn(kids[..g + 1], x, above)) ==
            AddCallees(AddCallees(down, OccurrencesIn(kids[..g], x, above)), Occurrences(kids[g], x, above))
  {
    OccurrencesInLast(kids[..g + 1], x, above);
    assert kids[..g + 1][..g] == kids[..g];
    AddCallersConcat(up, OccurrencesIn(kids[..g], x, above), Occurrences(kids[g], x, above));
    AddCalleesConcat(down, OccurrencesIn(kids[..g], x, above), Occurrences(kids[g], x, above));
  }

  method FoldOccurrence(node: FlameNode, path: PathStack, callers: FlameNode, callees: FlameNode)
    requires Apart(node, callers, callees)
    modifies callers.Repr, callees.Repr
    ensures Apart(node, callers, callees)
    ensures fresh(callers.Repr - old(callers.Repr)) && fresh(callees.Repr - old(callees.Repr))
    ensures callers.model == AddCaller(old(callers.model), Occurrence(path.items, node.model))
    ensures callees.model == AddCallee(old(callees.model), Occurrence(path.items, node.model))
  {
    if |path.items| > 0 {
      callers.InsertCallers(Reversed(path.items), node.weight);
    }
    callees.InsertCalleeSubtree(node);
  }

  lemma {:induction false} AddOne(up: Tree, down: Tree, o: Occurrence)
    ensures AddCallers(up, [o]) == AddCaller(up, o) && AddCallees(down, [o]) == AddCallee(down, o)
  {
    assert |[o][1..]| == 0;
  }

  const META_ID := FrameId(0, 0)

  /** `new_meta_node(_, 0)` */
  ghost predicate IsMeta(t: Tree) {
    IsFresh(t) && t.id == META_ID
  }

  /** `build_sandwich_view` */
  method BuildSandwich(root: FlameNode, frame: FrameId) returns (callers: FlameNode, callees: FlameNode)
    requires root.Valid()
    ensures Apart(root, callers, callees) && fresh(callers.Repr) && fresh(callees.Repr)
    ensures IsSandwich(root.model, frame, callers.model, callees.model)
  {
    ghost var up, down, none;
    callers, callees, up, down, none := MergeOccurrences(root, frame);
    SortBoth(root, callers, callees);
    ShowsMerge(root.model, frame, none, up, down, callers.model, callees.model);
  }

  method SortBoth(root: FlameNode, callers: FlameNode, callees: FlameNode)
    requires Apart(root, callers, callees)
    modifies callers.Repr, callees.Repr
    ensures Apart(root, callers, callees)
    ensures callers.Repr == old(callers.Repr) && callees.Repr == old(callees.Repr)
    ensures SortOf(old(callers.model), callers.model) && SortOf(old(callees.model), callees.model)
  {
    callers.SortChildren();
    callees.SortChildren();
  }

  lemma {:induction false} ShowsMerge(root: Tree, frame: FrameId, none: seq<FrameId>, up: Tree, down: Tree, callers: Tree, callees: Tree)
    requires |none| == 0 && IsMeta(up) && IsMeta(down)
    requires SortOf(AddCallers(up, Occurrences(root, frame, none)), callers)
    requires SortOf(AddCallees(down, Occurrences(root, frame, none)), callees)
    ensures IsSandwich(root, frame, callers, callees)
  {
    assert IsView(Occurrences(root, frame, none), up, down, callers, callees);
  }

  /** The traversal, from two fresh meta nodes and an empty path. */
  method MergeOccurrences(root: FlameNode, frame: FrameId)
    returns (callers: FlameNode, callees: FlameNode, ghost up: Tree, ghost down: Tree, ghost none: seq<FrameId>)
    requires root.Valid()
    ensures Apart(root, callers, callees) && fresh(callers.Repr) && fresh(callees.Repr)
    ensures IsMeta(up) && IsMeta(down) && |none| == 0
    ensures callers.model == AddCallers(up, Occurrences(root.model, frame, none))
    ensures callees.model == AddCallees(down, Occurrences(root.model, frame, none))
  {
    callers := new FlameNode(META_ID, 0, 0);
    callees := new FlameNode(META_ID, 0, 0);
    var path := new PathStack();
    up, down, none := callers.model, callees.model, path.items;
    CollectPaths(root, frame, path, callers, callees);
  }

  /** The sorted merge of the occurrences into two fresh tries. */
  ghost predicate IsView(os: seq<Occurrence>, up: Tree, down: Tree, callers: Tree, callees: Tree) {
    IsMeta(up) && IsMeta(down) && SortOf(AddCallers(up, os), callers) && SortOf(AddCallees(down, os), callees)
  }

  ghost predicate IsSandwich(root: Tree, frame: FrameId, callers: Tree, callees: Tree) {
    exists none: seq<FrameId>, up: Tree, down: Tree {:trigger IsView(Occurrences(root, frame, none), up, down, callers, callees)} ::
      |none| == 0 && IsView(Occurrences(root, frame, none), up, down, callers, callees)
  }

  /** What the finished sandwich view shows. At every path of callers stands the
      weight of the topmost occurrences reached through those callers; at every path of
      callees, the sum of what the occurrences have there; neither has any other path;
      each meta root weighs what its children weigh, and siblings are in order at every
      depth. If the graph's children weigh no more than their parents, neither do those
      of the two tries. */
  lemma {:induction false} SandwichExact(root: Tree, frame: FrameId, callers: Tree, callees: Tree, q: seq<FrameId>) returns (os: seq<Occurrence>)
    requires IsSandwich(root, frame, callers, callees)
    ensures OccWeight(os) == TopSum(root, frame)
    ensures exists none: seq<FrameId> {:trigger Occurrences(root, frame, none)} :: |none| == 0 && os == Occurrences(root, frame, none)
    ensures Inv(callers, 0) && WeightOf(Reach(callers, 0, q)) == CallerTotal(os, q)
    ensures callers.weight == WeightChildren(callers.kids) && OrderedTree(callers)
    ensures PathWeight(callees.kids, q) == CalleeTotal(os, q)
    ensures Reach(callers, 0, q).Some? <==> |q| == 0 || SomeCallerHas(os, q)
    ensures HasPath(callees.kids, q) <==> SomeOccurrenceHas(os, q)
    ensures callees.weight == WeightChildren(callees.kids) && OrderedTree(callees)
    ensures Heavy(callers) && (Heavy(root) ==> Heavy(callees))
    ensures callers.id == callees.id == FrameId(0, 0) && callers.skip == callees.skip == 0
  {
    HeadsStay(root, frame, callers, callees);
    var none: seq<FrameId>, up: Tree, down: Tree :|
      |none| == 0 && IsView(Occurrences(root, frame, none), up, down, callers, callees);
    os := Occurrences(root, frame, none);
    OccurrencesWeigh(root, frame, none);
    FreshInv(up);
    CallersExact(up, os, q);
    SortKeepsInv(AddCallers(up, os), callers, 0);
    SortKeepsPaths(AddCallers(up, os), callers, 0, q);
    SortKeepsWeights(AddCallers(up, os), callers, q, frame);
    SortOrders(AddCallers(up, os), callers);
    CalleesExact(down, os, q);
    CalleesSorted(AddCallees(down, os), callees, q);
    CallerPaths(up, os, q);
    CalleePaths(down, os, q);
    SortKeepsHas(AddCallees(down, os), callees, q);
    NoneHas(down.kids, q);
    BothHeavy(root, frame, none, up, down, callers, callees);
    assert |down.kids| == 0 && PathWeight(down.kids, q) == 0 && WeightChildren(down.kids) == 0;
  }

  lemma {:induction false} HeadsStay(root: Tree, frame: FrameId, callers: Tree, callees: Tree)
    requires IsSandwich(root, frame, callers, callees)
    ensures callers.id == callees.id == FrameId(0, 0) && callers.skip == callees.skip == 0
  {
    var none: seq<FrameId>, up: Tree, down: Tree :|
      |none| == 0 && IsView(Occurrences(root, frame, none), up, down, callers, callees);
    AddedHeads(up, down, Occurrences(root, frame, none));
  }

  lemma {:induction false} AddedHeads(up: Tree, down: Tree, os: seq<Occurrence>)
    ensures AddCallers(up, os).id == up.id && AddCallers(up, os).skip == up.skip
    ensures AddCallees(down, os).id == down.id && AddCallees(down, os).skip == down.skip
    decreases |os|
  {
    if |os| > 0 {
      AddedHeads(AddCaller(up, os[0]), AddCallee(down, os[0]), os[1..]);
    }
  }

  lemma {:induction false} BothHeavy(root: Tree, frame: FrameId, above: seq<FrameId>, up: Tree, down: Tree, callers: Tree, callees: Tree)
    requires IsView(Occurrences(root, frame, above), up, down, callers, callees)
    ensures Heavy(callers) && (Heavy(root) ==> Heavy(callees))
  {
    var os := Occurrences(root, frame, above);
    FreshInv(up);
    CallersExact(up, os, above);
    InvHeavy(AddCallers(up, os), 0);
    SortKeepsHeavy(AddCallers(up, os), callers);
    if Heavy(root) {
      OccurrencesHeavy(root, frame, above);
      CalleesHeavy(down, os);
      SortKeepsHeavy(AddCallees(down, os), callees);
    }
  }

  lemma {:induction false} CalleesSorted(t: Tree, r: Tree, q: seq<FrameId>)
    requires SortOf(t, r)
    ensures PathWeight(r.kids, q) == PathWeight(t.kids, q)
    ensures WeightChildren(r.kids) == WeightChildren(t.kids) && r.weight == t.weight && OrderedTree(r)
  {
    SortOrders(t, r);
    SortKeepsWeights(t, r, q, t.id);
    SortKeepsBelow(t, r, q);
  }
}
