/** Which paths exist in the two tries of a sandwich view: those of the occurrences. */
module FlamePaths {
  import opened FlameTrie
  import opened FlameSearch
  import opened FlameSandwich
  import opened FlameSort

  /** Whether the id path `q` leads from a list of siblings to some node. */
  ghost predicate HasPath(kids: seq<Tree>, q: seq<FrameId>)
    decreases |q|, 1
  {
    exists i {:trigger kids[i]} :: 0 <= i < |kids| && NodeHas(kids[i], q)
  }

  ghost predicate NodeHas(t: Tree, q: seq<FrameId>)
    decreases |q|, 0
  {
    |q| > 0 && t.id == q[0] && (|q| == 1 || HasPath(t.kids, q[1..]))
  }

  lemma {:induction false} HasUpdate(kids: seq<Tree>, i: nat, c: Tree, q: seq<FrameId>)
    requires i < |kids| && (NodeHas(kids[i], q) ==> NodeHas(c, q))
    ensures HasPath(kids[i := c], q) <==> HasPath(kids, q) || NodeHas(c, q)
  {
    var r := kids[i := c];
    if HasPath(kids, q) {
      var j :| 0 <= j < |kids| && NodeHas(kids[j], q);
      assert NodeHas(r[j], q);
    }
    if NodeHas(c, q) {
      assert NodeHas(r[i], q);
    }
    if HasPath(r, q) {
      var j :| 0 <= j < |r| && NodeHas(r[j], q);
      assert j != i ==> NodeHas(kids[j], q);
    }
  }

  lemma {:induction false} HasAppend(kids: seq<Tree>, c: Tree, q: seq<FrameId>)
    ensures HasPath(kids + [c], q) <==> HasPath(kids, q) || NodeHas(c, q)
  {
    var r := kids + [c];
    if HasPath(kids, q) {
      var j :| 0 <= j < |kids| && NodeHas(kids[j], q);
      assert NodeHas(r[j], q);
    }
    if NodeHas(c, q) {
      assert NodeHas(r[|kids|], q);
    }
    if HasPath(r, q) {
      var j :| 0 <= j < |r| && NodeHas(r[j], q);
      assert j < |kids| ==> NodeHas(kids[j], q);
    }
  }

  lemma {:induction false} NoneHas(kids: seq<Tree>, q: seq<FrameId>)
    requires |kids| == 0
    ensures !HasPath(kids, q)
  {
  }

  lemma {:induction false} MergeNodeHas(kids: seq<Tree>, n: Tree, q: seq<FrameId>)
    ensures HasPath(MergeNode(kids, n), q) <==> HasPath(kids, q) || NodeHas(n, q)
    decreases n
  {
    var i := Find(kids, n.id);
    var c := MergeNode(kids, n)[i];
    if i < |kids| {
      if |q| > 1 {
        MergeAllHas(kids[i].kids, n.kids, q[1..]);
      }
      HasUpdate(kids, i, c, q);
      assert NodeHas(kids[i], q) ==> HasPath(kids, q);
    } else {
      if |q| > 1 {
        MergeAllHas([], n.kids, q[1..]);
        NoneHas([], q[1..]);
      }
      HasAppend(kids, c, q);
    }
  }

  lemma {:induction false} MergeAllHas(kids: seq<Tree>, ns: seq<Tree>, q: seq<FrameId>)
    ensures HasPath(MergeAll(kids, ns), q) <==> HasPath(kids, q) || HasPath(ns, q)
    decreases ns
  {
    if |ns| > 0 {
      MergeNodeHas(kids, ns[0], q);
      MergeAllHas(MergeNode(kids, ns[0]), ns[1..], q);
      HasFirst(ns, q);
    } else {
      NoneHas(ns, q);
    }
  }

  lemma {:induction false} HasFirst(ns: seq<Tree>, q: seq<FrameId>)
    requires |ns| > 0
    ensures HasPath(ns, q) <==> NodeHas(ns[0], q) || HasPath(ns[1..], q)
  {
    if HasPath(ns, q) {
      var j :| 0 <= j < |ns| && NodeHas(ns[j], q);
      assert j > 0 ==> NodeHas(ns[1..][j - 1], q);
    }
    if HasPath(ns[1..], q) {
      var j :| 0 <= j < |ns| - 1 && NodeHas(ns[1..][j], q);
      assert NodeHas(ns[j + 1], q);
    }
  }

  ghost predicate SomeOccurrenceHas(os: seq<Occurrence>, q: seq<FrameId>) {
    |os| > 0 && (HasPath(os[0].node.kids, q) || SomeOccurrenceHas(os[1..], q))
  }

  /** The merged callees have exactly the paths that some occurrence has. */
  lemma {:induction false} CalleePaths(callees: Tree, os: seq<Occurrence>, q: seq<FrameId>)
    ensures HasPath(AddCallees(callees, os).kids, q) <==> HasPath(callees.kids, q) || SomeOccurrenceHas(os, q)
    decreases |os|
  {
    if |os| > 0 {
      MergeAllHas(callees.kids, os[0].node.kids, q);
      CalleePaths(AddCallee(callees, os[0]), os[1..], q);
    }
  }

  /** Sorting neither adds nor removes paths. */
  lemma {:induction false} SortKeepsHas(t: Tree, r: Tree, q: seq<FrameId>)
    requires SortOf(t, r)
    ensures HasPath(t.kids, q) <==> HasPath(r.kids, q)
    ensures NodeHas(t, q) <==> NodeHas(r, q)
    decreases r, |q|
  {
    var perm: seq<nat>, mid: seq<Tree> :| Reordered(t.kids, perm, mid) && SortsOf(mid, r);
    forall j | 0 <= j < |r.kids| ensures perm[j] < |t.kids| && (NodeHas(t.kids[perm[j]], q) <==> NodeHas(r.kids[j], q)) {
      assert mid[j] == t.kids[perm[j]] && SortOf(mid[j], r.kids[j]);
      SortKeepsHas(mid[j], r.kids[j], q);
    }
    if HasPath(t.kids, q) {
      var i :| 0 <= i < |t.kids| && NodeHas(t.kids[i], q);
      var j := PermSurjective(perm, |t.kids|, i);
      assert NodeHas(r.kids[j], q);
    }
    if HasPath(r.kids, q) {
      var j :| 0 <= j < |r.kids| && NodeHas(r.kids[j], q);
      assert NodeHas(t.kids[perm[j]], q);
    }
    if |q| > 1 {
      SortKeepsHas(t, r, q[1..]);
    }
  }

  // ----------------------------------------------------------------- callers

  /** Whether the inverted caller path of some occurrence starts with `q`. */
  ghost predicate SomeCallerHas(os: seq<Occurrence>, q: seq<FrameId>) {
    |os| > 0 &&
      var o := os[|os| - 1];
      SomeCallerHas(os[..|os| - 1], q) || StartsAbove(o.above, q)
  }

  lemma {:induction false} SamplesHave(os: seq<Occurrence>, q: seq<FrameId>)
    ensures SomePrefix(CallerSamples(os), q) <==> SomeCallerHas(os, q)
    decreases |os|
  {
    if |os| > 0 {
      var most, o := os[..|os| - 1], os[|os| - 1];
      SamplesHave(most, q);
      StartsReversed(o.above, q);
      if |o.above| > 0 {
        var ss := CallerSamples(os);
        assert ss[..|ss| - 1] == CallerSamples(most);
        SomePrefixStep(ss, q);
        StepsPrefix(q, Reversed(o.above));
      }
    }
  }

  /** The callers trie has exactly the paths that are prefixes of an inverted caller
      path. */
  lemma {:induction false} CallerPaths(callers: Tree, os: seq<Occurrence>, q: seq<FrameId>)
    requires IsFresh(callers) && Inv(callers, 0)
    ensures Inv(AddCallers(callers, os), 0)
    ensures Reach(AddCallers(callers, os), 0, q).Some? <==> |q| == 0 || SomeCallerHas(os, q)
  {
    CallersAreBuilt(callers, os);
    BuildIsTrie(callers, CallerSamples(os), q);
    SamplesHave(os, q);
  }
}
