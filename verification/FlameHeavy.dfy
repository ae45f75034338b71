/** Self weights: in every tree that is shown, no node's children weigh more than it,
    so that `weight_self` is a subtraction of natural numbers. */
module FlameHeavy {
  import opened FlameTrie
  import opened FlameSearch
  import opened FlameSandwich
  import opened FlameSort

  /** At every depth, children weigh no more than their parent. */
  ghost predicate Heavy(t: Tree) {
    WeightChildren(t.kids) <= t.weight && AllHeavy(t.kids)
  }

  ghost predicate AllHeavy(kids: seq<Tree>) {
    forall i {:trigger kids[i]} | 0 <= i < |kids| :: Heavy(kids[i])
  }

  lemma {:induction false} InvHeavy(t: Tree, k: nat)
    requires Inv(t, k)
    ensures Heavy(t)
    decreases t
  {
    if k > 0 {
      InvHeavy(t.kids[0], k - 1);
      assert |t.kids[1..]| == 0;
    } else {
      forall i | 0 <= i < |t.kids| ensures Heavy(t.kids[i]) {
        InvHeavy(t.kids[i], t.kids[i].skip);
      }
    }
  }

  lemma {:induction false} MergeNodeHeavy(kids: seq<Tree>, n: Tree)
    requires AllHeavy(kids) && Heavy(n)
    ensures AllHeavy(MergeNode(kids, n))
    decreases n
  {
    var i := Find(kids, n.id);
    if i < |kids| {
      MergeAllHeavy(kids[i].kids, n.kids);
      MergeAllWeight(kids[i].kids, n.kids);
    } else {
      MergeAllHeavy([], n.kids);
      MergeAllWeight([], n.kids);
    }
  }

  lemma {:induction false} MergeAllHeavy(kids: seq<Tree>, ns: seq<Tree>)
    requires AllHeavy(kids) && AllHeavy(ns)
    ensures AllHeavy(MergeAll(kids, ns))
    decreases ns
  {
    if |ns| > 0 {
      MergeNodeHeavy(kids, ns[0]);
      forall i | 0 <= i < |ns[1..]| ensures Heavy(ns[1..][i]) {
        assert ns[1..][i] == ns[i + 1];
      }
      MergeAllHeavy(MergeNode(kids, ns[0]), ns[1..]);
    }
  }

  ghost predicate HeavyNodes(os: seq<Occurrence>) {
    forall i {:trigger os[i]} | 0 <= i < |os| :: Heavy(os[i].node)
  }

  lemma {:induction false} OccurrencesHeavy(t: Tree, x: FrameId, above: seq<FrameId>)
    requires Heavy(t)
    ensures HeavyNodes(Occurrences(t, x, above))
    decreases t
  {
    if t.id != x {
      OccurrencesInHeavy(t.kids, x, Above(above, t.id));
    }
  }

  lemma {:induction false} OccurrencesInHeavy(kids: seq<Tree>, x: FrameId, above: seq<FrameId>)
    requires AllHeavy(kids)
    ensures HeavyNodes(OccurrencesIn(kids, x, above))
    decreases kids
  {
    if |kids| > 0 {
      OccurrencesHeavy(kids[0], x, above);
      forall i | 0 <= i < |kids[1..]| ensures Heavy(kids[1..][i]) {
        assert kids[1..][i] == kids[i + 1];
      }
      OccurrencesInHeavy(kids[1..], x, above);
    }
  }

  /** Merging occurrences keeps the callees heavy, although it breaks inline chains. */
  lemma {:induction false} CalleesHeavy(callees: Tree, os: seq<Occurrence>)
    requires Heavy(callees) && HeavyNodes(os)
    ensures Heavy(AddCallees(callees, os))
    decreases |os|
  {
    if |os| > 0 {
      assert Heavy(os[0].node);
      MergeAllHeavy(callees.kids, os[0].node.kids);
      MergeAllWeight(callees.kids, os[0].node.kids);
      forall i | 0 <= i < |os[1..]| ensures Heavy(os[1..][i].node) {
        assert os[1..][i] == os[i + 1];
      }
      CalleesHeavy(AddCallee(callees, os[0]), os[1..]);
    }
  }

  lemma {:induction false} SortKeepsHeavy(t: Tree, r: Tree)
    requires SortOf(t, r) && Heavy(t)
    ensures Heavy(r)
    decreases r
  {
    SortKeepsWeights(t, r, [], t.id);
    var perm: seq<nat>, mid: seq<Tree> :| Reordered(t.kids, perm, mid) && SortsOf(mid, r);
    forall i | 0 <= i < |r.kids| ensures Heavy(r.kids[i]) {
      assert perm[i] < |t.kids| && mid[i] == t.kids[perm[i]];
      SortKeepsHeavy(mid[i], r.kids[i]);
    }
  }
}
