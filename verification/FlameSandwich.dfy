/** The two merged tries of the sandwich view, as values: callers, inverted, and
    callees, and what weight stands at every path in them. */
module FlameSandwich {
  import opened Wrappers
  import opened FlameTrie
  import opened FlameSearch

  // ---------------------------------------------------------------- callers

  /** `insert_caller_path` below a node: find or create a child for each id in turn. */
  ghost function InsertFlat(t: Tree, ids: seq<FrameId>, w: nat): Tree
    decreases |ids|
  {
    if |ids| == 0 then Tree(t.id, t.skip, t.weight + w, t.kids)
    else
      var i := Find(t.kids, ids[0]);
      var kids :=
        if i < |t.kids| then t.kids[i := InsertFlat(t.kids[i], ids[1..], w)]
        else t.kids + [GrowFlat(ids[0], ids[1..], w)];
      Tree(t.id, t.skip, t.weight + w, kids)
  }

  ghost function GrowFlat(id: FrameId, ids: seq<FrameId>, w: nat): Tree
    decreases |ids|
  {
    Tree(id, 0, w, if |ids| == 0 then [] else [GrowFlat(ids[0], ids[1..], w)])
  }

  /** No inline chains anywhere below. */
  ghost predicate Flat(t: Tree) {
    forall i {:trigger t.kids[i]} | 0 <= i < |t.kids| :: t.kids[i].skip == 0 && Flat(t.kids[i])
  }

  ghost function Steps(ids: seq<FrameId>): (path: seq<Step>)
    ensures |path| == |ids| && StepsOk(path)
    ensures forall i {:trigger path[i]} | 0 <= i < |ids| :: path[i] == Step(ids[i], 1)
  {
    seq(|ids|, i requires 0 <= i < |ids| => Step(ids[i], 1))
  }

  lemma {:induction false} StepsRest(ids: seq<FrameId>)
    requires |ids| > 0
    ensures Steps(ids)[1..] == Steps(ids[1..])
  {
  }

  lemma {:induction false} GrowFlatIsGrow(id: FrameId, ids: seq<FrameId>, w: nat)
    ensures GrowFlat(id, ids, w) == Grow(id, 0, 0, Steps(ids), w)
    ensures Flat(GrowFlat(id, ids, w))
    decreases |ids|
  {
    if |ids| > 0 {
      GrowFlatIsGrow(ids[0], ids[1..], w);
      StepsRest(ids);
      assert SkipOf(Steps(ids)[0]) == 0;
    }
  }

  /** On a tree without inline chains, inserting a caller path is inserting a trace
      of frames that each stand for one node. */
  lemma {:induction false} FlatIsInsert(t: Tree, ids: seq<FrameId>, w: nat)
    requires Flat(t) && Inv(t, 0)
    ensures InsertFlat(t, ids, w) == Insert(t, 0, Steps(ids), w)
    ensures Flat(InsertFlat(t, ids, w))
    decreases |ids|
  {
    if |ids| > 0 {
      StepsRest(ids);
      assert SkipOf(Steps(ids)[0]) == 0;
      var i := Find(t.kids, ids[0]);
      if i < |t.kids| {
        FlatIsInsert(t.kids[i], ids[1..], w);
        InsertHead(t.kids[i], 0, Steps(ids[1..]), w);
      } else {
        GrowFlatIsGrow(ids[0], ids[1..], w);
      }
    }
  }

  function Reversed(s: seq<FrameId>): (r: seq<FrameId>)
    ensures |r| == |s|
    ensures forall i {:trigger r[i]} | 0 <= i < |r| :: r[i] == s[|s| - 1 - i]
  {
    seq(|s|, i requires 0 <= i < |s| => s[|s| - 1 - i])
  }

  /** One occurrence inserted into the callers: only if there is anything above it. */
  ghost function AddCaller(callers: Tree, o: Occurrence): Tree {
    if |o.above| > 0 then InsertFlat(callers, Reversed(o.above), o.node.weight) else callers
  }

  ghost function AddCallers(callers: Tree, os: seq<Occurrence>): Tree
    decreases |os|
  {
    if |os| == 0 then callers else AddCallers(AddCaller(callers, os[0]), os[1..])
  }

  /** The occurrences with something above them, as samples of inverted caller paths. */
  ghost function CallerSamples(os: seq<Occurrence>): (ss: seq<Sample>)
    ensures SamplesOk(ss)
  {
    if |os| == 0 then []
    else
      var most, o := CallerSamples(os[..|os| - 1]), os[|os| - 1];
      if |o.above| > 0 then most + [Sample(Steps(Reversed(o.above)), o.node.weight)] else most
  }

  lemma {:induction false} AddCallersLast(callers: Tree, os: seq<Occurrence>)
    requires |os| > 0
    ensures AddCallers(callers, os) == AddCaller(AddCallers(callers, os[..|os| - 1]), os[|os| - 1])
    decreases |os|
  {
    if |os| > 1 {
      AddCallersLast(AddCaller(callers, os[0]), os[1..]);
      assert os[1..][..|os| - 2] == os[..|os| - 1][1..];
    } else {
      assert |os[1..]| == 0 && |os[..0]| == 0;
    }
  }

  lemma {:induction false} CallersAreBuilt(callers: Tree, os: seq<Occurrence>)
    requires IsFresh(callers) && Inv(callers, 0)
    ensures AddCallers(callers, os) == Build(callers, CallerSamples(os))
    ensures Flat(AddCallers(callers, os))
    decreases |os|
  {
    if |os| > 0 {
      var most, o := os[..|os| - 1], os[|os| - 1];
      CallersAreBuilt(callers, most);
      AddCallersLast(callers, os);
      if |o.above| > 0 {
        FlatIsInsert(AddCallers(callers, most), Reversed(o.above), o.node.weight);
        var ss := CallerSamples(os);
        assert ss[..|ss| - 1] == CallerSamples(most);
      }
    }
  }

  /** Read backwards, the path starts with `q`; an empty path starts with nothing. */
  ghost predicate StartsAbove(above: seq<FrameId>, q: seq<FrameId>) {
    |above| > 0 && |q| <= |above| && forall j {:trigger q[j]} | 0 <= j < |q| :: q[j] == above[|above| - 1 - j]
  }

  lemma {:induction false} StartsReversed(above: seq<FrameId>, q: seq<FrameId>)
    ensures StartsAbove(above, q) <==> |above| > 0 && |q| <= |above| && q == Reversed(above)[..|q|]
  {
    if |q| <= |above| {
      assert forall j | 0 <= j < |q| :: Reversed(above)[..|q|][j] == above[|above| - 1 - j];
    }
  }

  /** Weight of the occurrences whose inverted caller path starts with `q`. */
  ghost function CallerTotal(os: seq<Occurrence>, q: seq<FrameId>): nat {
    if |os| == 0 then 0
    else
      var o := os[|os| - 1];
      CallerTotal(os[..|os| - 1], q)
      + if StartsAbove(o.above, q) then o.node.weight else 0
  }

  lemma {:induction false} CallerTotalIsPrefixTotal(os: seq<Occurrence>, q: seq<FrameId>)
    ensures CallerTotal(os, q) == PrefixTotal(CallerSamples(os), q)
    ensures |q| == 0 ==> PathTotal(CallerSamples(os), q) == 0
    decreases |os|
  {
    if |os| > 0 {
      var most, o := os[..|os| - 1], os[|os| - 1];
      CallerTotalIsPrefixTotal(most, q);
      StartsReversed(o.above, q);
      if |o.above| > 0 {
        var ss := CallerSamples(os);
        assert ss[..|ss| - 1] == CallerSamples(most);
        StepsPrefix(q, Reversed(o.above));
      }
    }
  }

  lemma {:induction false} StepsPrefix(q: seq<FrameId>, ids: seq<FrameId>)
    ensures IsPrefix(q, Steps(ids)) <==> |q| <= |ids| && q == ids[..|q|]
  {
    if |q| <= |ids| && q == ids[..|q|] {
      forall i | 0 <= i < |q| ensures q[i] == Steps(ids)[i].id {
        assert q[i] == ids[..|q|][i];
      }
    }
    if IsPrefix(q, Steps(ids)) {
      forall i | 0 <= i < |q| ensures q[i] == ids[..|q|][i] {
        assert q[i] == Steps(ids)[i].id;
      }
    }
  }

  /** The callers trie is the exact merge of the occurrences' inverted caller paths,
      and its root weighs what its children weigh. */
  lemma {:induction false} CallersExact(callers: Tree, os: seq<Occurrence>, q: seq<FrameId>)
    requires IsFresh(callers) && Inv(callers, 0)
    ensures
      var built := AddCallers(callers, os);
      && Inv(built, 0)
      && WeightOf(Reach(built, 0, q)) == CallerTotal(os, q)
      && built.weight == WeightChildren(built.kids)
  {
    CallersAreBuilt(callers, os);
    BuildIsTrie(callers, CallerSamples(os), q);
    CallerTotalIsPrefixTotal(os, q);
    var root := q[..0];
    BuildIsTrie(callers, CallerSamples(os), root);
    CallerTotalIsPrefixTotal(os, root);
    assert Reach(Build(callers, CallerSamples(os)), 0, root) == Some(Build(callers, CallerSamples(os)));
  }

  // ---------------------------------------------------------------- callees

  /** `insert_callee_node`: fold a node and all below it into a list of siblings. */
  ghost function MergeNode(kids: seq<Tree>, n: Tree): seq<Tree>
    decreases n
  {
    var i := Find(kids, n.id);
    if i < |kids| then
      kids[i := Tree(kids[i].id, kids[i].skip, kids[i].weight + n.weight, MergeAll(kids[i].kids, n.kids))]
    else
      kids + [Tree(n.id, n.skip, n.weight, MergeAll([], n.kids))]
  }

  ghost function MergeAll(kids: seq<Tree>, ns: seq<Tree>): seq<Tree>
    decreases ns
  {
    if |ns| == 0 then kids else MergeAll(MergeNode(kids, ns[0]), ns[1..])
  }

  lemma {:induction false} MergeAllLast(kids: seq<Tree>, ns: seq<Tree>)
    requires |ns| > 0
    ensures MergeAll(kids, ns) == MergeNode(MergeAll(kids, ns[..|ns| - 1]), ns[|ns| - 1])
    decreases |ns|
  {
    if |ns| > 1 {
      MergeAllLast(MergeNode(kids, ns[0]), ns[1..]);
      assert ns[1..][..|ns| - 2] == ns[..|ns| - 1][1..];
    } else {
      assert |ns[1..]| == 0 && |ns[..0]| == 0;
    }
  }

  /** Summed weight of the nodes at the id path `q` below a list of siblings. */
  ghost function PathWeight(kids: seq<Tree>, q: seq<FrameId>): nat
    decreases |q|, |kids|
  {
    if |kids| == 0 then 0 else NodeWeight(kids[0], q) + PathWeight(kids[1..], q)
  }

  ghost function NodeWeight(t: Tree, q: seq<FrameId>): nat
    decreases |q|, 0
  {
    if |q| == 0 || t.id != q[0] then 0
    else if |q| == 1 then t.weight
    else PathWeight(t.kids, q[1..])
  }

  lemma {:induction false} PathWeightAppend(kids: seq<Tree>, c: Tree, q: seq<FrameId>)
    ensures PathWeight(kids + [c], q) == PathWeight(kids, q) + NodeWeight(c, q)
    decreases |kids|
  {
    if |kids| == 0 {
      assert (kids + [c])[1..] == kids;
    } else {
      assert (kids + [c])[1..] == kids[1..] + [c];
      PathWeightAppend(kids[1..], c, q);
    }
  }

  lemma {:induction false} PathWeightUpdate(kids: seq<Tree>, i: nat, c: Tree, q: seq<FrameId>)
    requires i < |kids|
    ensures PathWeight(kids[i := c], q) == PathWeight(kids, q) - NodeWeight(kids[i], q) + NodeWeight(c, q)
    decreases |kids|
  {
    if i == 0 {
      assert kids[i := c][1..] == kids[1..];
    } else {
      assert kids[i := c][1..] == kids[1..][i - 1 := c];
      PathWeightUpdate(kids[1..], i - 1, c, q);
    }
  }

  /** Folding a node in adds, at every path, the weight the node has at that path. */
  lemma {:induction false} MergeNodePath(kids: seq<Tree>, n: Tree, q: seq<FrameId>)
    ensures PathWeight(MergeNode(kids, n), q) == PathWeight(kids, q) + NodeWeight(n, q)
    decreases n
  {
    var i := Find(kids, n.id);
    var c := MergeNode(kids, n)[i];
    if i < |kids| {
      PathWeightUpdate(kids, i, c, q);
      if |q| > 1 {
        MergeAllPath(kids[i].kids, n.kids, q[1..]);
      }
    } else {
      PathWeightAppend(kids, c, q);
      if |q| > 1 {
        MergeAllPath([], n.kids, q[1..]);
      }
    }
  }

  lemma {:induction false} MergeAllPath(kids: seq<Tree>, ns: seq<Tree>, q: seq<FrameId>)
    ensures PathWeight(MergeAll(kids, ns), q) == PathWeight(kids, q) + PathWeight(ns, q)
    decreases ns
  {
    if |ns| > 0 {
      MergeNodePath(kids, ns[0], q);
      MergeAllPath(MergeNode(kids, ns[0]), ns[1..], q);
    }
  }

  lemma {:induction false} MergeAllWeight(kids: seq<Tree>, ns: seq<Tree>)
    ensures WeightChildren(MergeAll(kids, ns)) == WeightChildren(kids) + WeightChildren(ns)
    decreases |ns|
  {
    if |ns| > 0 {
      var i := Find(kids, ns[0].id);
      var c := MergeNode(kids, ns[0])[i];
      if i < |kids| {
        WeightUpdate(kids, i, c);
      } else {
        WeightAppend(kids, c);
      }
      MergeAllWeight(MergeNode(kids, ns[0]), ns[1..]);
    }
  }

  /** Siblings have distinct ids, here and everywhere below. */
  ghost predicate AllDistinct(kids: seq<Tree>) {
    Distinct(kids) && forall i {:trigger kids[i]} | 0 <= i < |kids| :: AllDistinct(kids[i].kids)
  }

  lemma {:induction false} MergeNodeDistinct(kids: seq<Tree>, n: Tree)
    requires AllDistinct(kids)
    ensures AllDistinct(MergeNode(kids, n))
    decreases n
  {
    var i := Find(kids, n.id);
    if i < |kids| {
      MergeAllDistinct(kids[i].kids, n.kids);
    } else {
      MergeAllDistinct([], n.kids);
    }
  }

  lemma {:induction false} MergeAllDistinct(kids: seq<Tree>, ns: seq<Tree>)
    requires AllDistinct(kids)
    ensures AllDistinct(MergeAll(kids, ns))
    decreases ns
  {
    if |ns| > 0 {
      MergeNodeDistinct(kids, ns[0]);
      MergeAllDistinct(MergeNode(kids, ns[0]), ns[1..]);
    }
  }

  /** `insert_callee_subtree` */
  ghost function AddCallee(callees: Tree, o: Occurrence): Tree {
    Tree(callees.id, callees.skip, callees.weight + WeightChildren(o.node.kids), MergeAll(callees.kids, o.node.kids))
  }

  ghost function AddCallees(callees: Tree, os: seq<Occurrence>): Tree
    decreases |os|
  {
    if |os| == 0 then callees else AddCallees(AddCallee(callees, os[0]), os[1..])
  }

  /** Summed weight of the occurrences' own nodes at `q`. */
  ghost function CalleeTotal(os: seq<Occurrence>, q: seq<FrameId>): nat {
    if |os| == 0 then 0 else PathWeight(os[0].node.kids, q) + CalleeTotal(os[1..], q)
  }

  /** The callees trie is the exact merge of what is below the occurrences: at every
      path its (single) node weighs the sum of theirs, and its root gains exactly
      what its children gain. */
  lemma {:induction false} CalleesExact(callees: Tree, os: seq<Occurrence>, q: seq<FrameId>)
    requires AllDistinct(callees.kids)
    ensures
      var built := AddCallees(callees, os);
      && AllDistinct(built.kids)
      && PathWeight(built.kids, q) == PathWeight(callees.kids, q) + CalleeTotal(os, q)
      && built.weight - WeightChildren(built.kids) == callees.weight - WeightChildren(callees.kids)
    decreases |os|
  {
    if |os| > 0 {
      MergeAllDistinct(callees.kids, os[0].node.kids);
      MergeAllPath(callees.kids, os[0].node.kids, q);
      MergeAllWeight(callees.kids, os[0].node.kids);
      CalleesExact(AddCallee(callees, os[0]), os[1..], q);
    }
  }

  // ------------------------------------------------------- search by children

  lemma {:induction false} AddCallersConcat(callers: Tree, a: seq<Occurrence>, b: seq<Occurrence>)
    ensures AddCallers(callers, a + b) == AddCallers(AddCallers(callers, a), b)
    decreases |a|
  {
    if |a| == 0 {
      assert a + b == b;
    } else {
      assert (a + b)[1..] == a[1..] + b;
      AddCallersConcat(AddCaller(callers, a[0]), a[1..], b);
    }
  }

  lemma {:induction false} AddCalleesConcat(callees: Tree, a: seq<Occurrence>, b: seq<Occurrence>)
    ensures AddCallees(callees, a + b) == AddCallees(AddCallees(callees, a), b)
    decreases |a|
  {
    if |a| == 0 {
      assert a + b == b;
    } else {
      assert (a + b)[1..] == a[1..] + b;
      AddCalleesConcat(AddCallee(callees, a[0]), a[1..], b);
    }
  }

  lemma {:induction false} OccurrencesInLast(kids: seq<Tree>, x: FrameId, above: seq<FrameId>)
    requires |kids| > 0
    ensures OccurrencesIn(kids, x, above) ==
            OccurrencesIn(kids[..|kids| - 1], x, above) + Occurrences(kids[|kids| - 1], x, above)
    decreases |kids|
  {
    if |kids| > 1 {
      OccurrencesInLast(kids[1..], x, above);
      assert kids[1..][..|kids| - 2] == kids[..|kids| - 1][1..];
    } else {
      assert |kids[1..]| == 0 && |kids[..0]| == 0;
    }
  }
}
