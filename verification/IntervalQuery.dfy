/** Queries on the interval tree: the explicit-stack iterator against a linear
    filter, its stack bound and its visit bound. */
module IntervalQuery {
  import opened IntervalTree

  // ------------------------------------------------------- what is to be found

  /** All elements of a slice in the order the iterator reaches them: the middle
      one, then the right half, then the left half. */
  ghost function Walk<V>(es: seq<Element<V>>, t: Slice): seq<Element<V>>
    requires Spans(t, |es|)
    decreases t
  {
    if t.Empty? then es[..0] else [es[t.Mid()]] + (Walk(es, t.right) + Walk(es, t.left))
  }

  ghost function Hits<V>(es: seq<Element<V>>, q: Query, t: Slice): seq<Element<V>>
    requires Spans(t, |es|)
  {
    Filter(q, Walk(es, t))
  }

  lemma {:induction false} SplitHits<V>(es: seq<Element<V>>, q: Query, t: Slice)
    requires t.Split? && Spans(t, |es|)
    ensures
      var e := es[t.Mid()];
      var below := Hits(es, q, t.right) + Hits(es, q, t.left);
      Hits(es, q, t) == if Matches(q, e) then [e] + below else below
  {
    FilterConcat(q, Walk(es, t.right), Walk(es, t.left));
  }

  lemma {:induction false} SliceParts<T>(es: seq<T>, s: nat, m: nat, r: nat, end: nat)
    requires s <= m < end <= |es| && r == m + 1
    ensures multiset(es[s..end]) == multiset(es[s..m]) + multiset{es[m]} + multiset(es[r..end])
  {
    assert es[s..end] == es[s..m] + [es[m]] + es[r..end];
  }

  lemma {:induction false} JoinedMultiset<T>(x: T, a: seq<T>, b: seq<T>)
    ensures multiset([x] + (a + b)) == multiset(b) + multiset{x} + multiset(a)
  {
  }

  lemma {:induction false} WalkParts<V>(es: seq<Element<V>>, t: Slice, m: nat)
    requires t.Split? && Spans(t, |es|) && m == t.Mid()
    ensures multiset(Walk(es, t)) == multiset(Walk(es, t.left)) + multiset{es[m]} + multiset(Walk(es, t.right))
  {
    JoinedMultiset(es[m], Walk(es, t.right), Walk(es, t.left));
  }

  /** The walk reaches every element of the slice as often as it is there. */
  lemma {:induction false} WalkPermutes<V>(es: seq<Element<V>>, t: Slice, s: nat, end: nat)
    requires Spans(t, |es|) && s == t.s && end == t.s + t.Len()
    ensures multiset(Walk(es, t)) == multiset(es[s..end])
    decreases t
  {
    if t.Empty? {
      assert |es[s..end]| == 0 && |Walk(es, t)| == 0;
    } else {
      var m, r := t.Mid(), t.Mid() + 1;
      WalkParts(es, t, m);
      WalkPermutes(es, t.left, s, m);
      WalkPermutes(es, t.right, r, end);
      SliceParts(es, s, m, r, end);
    }
  }

  lemma {:induction false} FilterCounts<V>(q: Query, es: seq<Element<V>>, e: Element<V>)
    ensures multiset(Filter(q, es))[e] == if Matches(q, e) then multiset(es)[e] else 0
    decreases |es|
  {
    if |es| > 0 {
      FilterCounts(q, es[1..], e);
      assert es == [es[0]] + es[1..];
    }
  }

  /** The hits in a slice, which goes from `s` to `end`, are its matching elements, each
      as often as it occurs. */
  lemma {:induction false} HitsCount<V>(es: seq<Element<V>>, q: Query, t: Slice, s: nat, end: nat, e: Element<V>)
    requires Spans(t, |es|) && s == t.s && end == t.s + t.Len()
    ensures multiset(Hits(es, q, t))[e] == if Matches(q, e) then multiset(es[s..end])[e] else 0
  {
    WalkPermutes(es, t, s, end);
    FilterCounts(q, Walk(es, t), e);
  }

  lemma {:induction false} NoHits<V>(es: seq<Element<V>>, q: Query, t: Slice)
    requires Spans(t, |es|)
    requires forall j | t.s <= j < t.s + t.Len() :: !Matches(q, es[j])
    ensures |Hits(es, q, t)| == 0
    decreases t
  {
    if t.Split? {
      SplitHits(es, q, t);
      NoHits(es, q, t.right);
      NoHits(es, q, t.left);
    }
  }

  // ------------------------------------------------------------- one expansion

  /** The test that keeps a slice: something in it ends after the query's point. */
  ghost predicate Alive<V>(nodes: seq<Node<V>>, q: Query, t: Slice)
    requires t.Split? && Spans(t, |nodes|)
  {
    q.PointOf() < nodes[t.Mid()].max
  }

  ghost predicate GoesRight<V>(nodes: seq<Node<V>>, q: Query, t: Slice)
    requires t.Split? && Spans(t, |nodes|)
  {
    q.GoRight(nodes[t.Mid()].element.start)
  }

  /** What expanding a slice returns itself. */
  ghost predicate Found<V>(nodes: seq<Node<V>>, q: Query, t: Slice)
    requires t.Split? && Spans(t, |nodes|)
  {
    Alive(nodes, q, t) && GoesRight(nodes, q, t) && q.Intersect(nodes[t.Mid()].element)
  }

  /** Both pruning tests are exact: what they cut off holds no hit, and what they
      keep contributes its hits in node, right, left order. */
  lemma {:induction false} Expansion<V>(nodes: seq<Node<V>>, es: seq<Element<V>>, q: Query, t: Slice)
    requires t.Split? && Spans(t, |es|) && Holds(nodes, es) && Augmented(nodes, es, t)
    ensures Exact(nodes, es, q, t)
  {
    MaxEndIsMax(es, t.s, t.l);
    assert es[t.Mid()].end <= nodes[t.Mid()].max;
    if !Alive(nodes, q, t) {
      NoHits(es, q, t);
    }
    if !GoesRight(nodes, q, t) {
      NoHits(es, q, t.right);
    }
    SplitHits(es, q, t);
  }

  ghost predicate Exact<V>(nodes: seq<Node<V>>, es: seq<Element<V>>, q: Query, t: Slice)
    requires t.Split? && Spans(t, |es|) && |nodes| == |es|
  {
    var below := HitsBelow(es, q, t, Alive(nodes, q, t), GoesRight(nodes, q, t));
    Hits(es, q, t) == if Found(nodes, q, t) then [es[t.Mid()]] + below else below
  }

  /** Hits in the halves an expansion keeps. */
  ghost function HitsBelow<V>(es: seq<Element<V>>, q: Query, t: Slice, alive: bool, right: bool): seq<Element<V>>
    requires t.Split? && Spans(t, |es|)
  {
    if !alive then es[..0]
    else if right then Hits(es, q, t.right) + Hits(es, q, t.left)
    else Hits(es, q, t.left)
  }

  // ----------------------------------------------------------- the todo stack

  /** `t` is a node of the implicit tree `root`. */
  ghost predicate Below(t: Slice, root: Slice) {
    t == root || (root.Split? && (Below(t, root.left) || Below(t, root.right)))
  }

  lemma {:induction false} BelowChild(t: Slice, root: Slice)
    requires t.Split? && Below(t, root)
    ensures Below(t.left, root) && Below(t.right, root)
    decreases root
  {
    if t == root {
      assert Below(root.left, root.left) && Below(root.right, root.right);
    } else if Below(t, root.left) {
      BelowChild(t, root.left);
    } else {
      BelowChild(t, root.right);
    }
  }

  /** Every pending slice is a node of the tree `root`. */
  ghost predicate AllBelow(root: Slice, p: seq<Slice>) {
    forall j {:trigger Below(p[j], root)} | 0 <= j < |p| :: Below(p[j], root)
  }

  /** Every pending slice is non-empty and augmented. */
  ghost predicate AllGood<V>(nodes: seq<Node<V>>, es: seq<Element<V>>, p: seq<Slice>)
    requires |nodes| == |es|
  {
    forall j | 0 <= j < |p| :: p[j].Split? && Spans(p[j], |es|) && Augmented(nodes, es, p[j])
  }

  /** Pending slices do not touch, and lie further right the nearer they are to the top. */
  ghost predicate Apart(p: seq<Slice>) {
    forall j, k | 0 <= j < k < |p| :: p[j].s + p[j].Len() < p[k].s
  }

  ghost function Pow2(n: nat): (p: nat)
    ensures p > 0
  {
    if n == 0 then 1 else 2 * Pow2(n - 1)
  }

  /** Each level of the stack holds slices at most half as long as the one below. */
  ghost predicate Narrowing(p: seq<Slice>, n: nat) {
    forall j | 0 <= j < |p| :: Pow2(j) * (p[j].Len() + 1) <= n + 1
  }

  ghost function Push(p: seq<Slice>, t: Slice): seq<Slice> {
    if t.Split? then p + [t] else p
  }

  ghost function Rest(p: seq<Slice>): seq<Slice>
    requires |p| > 0
  {
    p[..|p| - 1]
  }

  ghost function Top(p: seq<Slice>): Slice
    requires |p| > 0
  {
    p[|p| - 1]
  }

  /** The stack after one iteration of the loop in `QueryIter::next`, by the two
      pruning tests' outcomes for the slice on top. */
  ghost function Expand(p: seq<Slice>, alive: bool, right: bool): seq<Slice>
    requires |p| > 0 && Top(p).Split?
  {
    var t := Top(p);
    if !alive then Rest(p)
    else if right then Push(Push(Rest(p), t.left), t.right)
    else Push(Rest(p), t.left)
  }

  lemma {:induction false} ExpandGood<V>(nodes: seq<Node<V>>, es: seq<Element<V>>, p: seq<Slice>, alive: bool, right: bool)
    requires |p| > 0 && |nodes| == |es| && AllGood(nodes, es, p)
    ensures AllGood(nodes, es, Expand(p, alive, right))
  {
  }

  /** A stack of nodes of the halving tree stays one. */
  lemma {:induction false} ExpandBelow(root: Slice, p: seq<Slice>, alive: bool, right: bool)
    requires |p| > 0 && Top(p).Split? && AllBelow(root, p)
    ensures AllBelow(root, Expand(p, alive, right))
  {
    assert Below(p[|p| - 1], root);
    BelowChild(Top(p), root);
    var after := Expand(p, alive, right);
    forall j | 0 <= j < |after| ensures Below(after[j], root) {
      if j < |p| - 1 {
        assert after[j] == p[j] && Below(p[j], root);
      }
    }
  }

  /** The hits still to be returned, in the order they will be returned. */
  ghost function Remaining<V>(es: seq<Element<V>>, q: Query, p: seq<Slice>): seq<Element<V>>
    requires forall j | 0 <= j < |p| :: Spans(p[j], |es|)
    decreases |p|
  {
    if |p| == 0 then es[..0] else Hits(es, q, Top(p)) + Remaining(es, q, Rest(p))
  }

  lemma {:induction false} RemainingPush<V>(es: seq<Element<V>>, q: Query, p: seq<Slice>, t: Slice)
    requires Spans(t, |es|)
    requires forall j | 0 <= j < |p| :: Spans(p[j], |es|)
    ensures Remaining(es, q, Push(p, t)) == Hits(es, q, t) + Remaining(es, q, p)
  {
    if t.Split? {
      assert Rest(p + [t]) == p;
    }
  }

  /** One iteration returns the next hit, if it found one, and leaves the others. */
  lemma {:induction false} ExpandRemaining<V>(es: seq<Element<V>>, q: Query, p: seq<Slice>, alive: bool, right: bool)
    requires |p| > 0 && Top(p).Split? && Spans(Top(p), |es|)
    requires forall j | 0 <= j < |p| :: Spans(p[j], |es|)
    ensures Remaining(es, q, Expand(p, alive, right)) == HitsBelow(es, q, Top(p), alive, right) + Remaining(es, q, Rest(p))
  {
    var t, rest := Top(p), Rest(p);
    if alive {
      RemainingPush(es, q, rest, t.left);
      if right {
        RemainingPush(es, q, Push(rest, t.left), t.right);
      }
    }
  }

  lemma {:induction false} ExpandApart(p: seq<Slice>, n: nat, alive: bool, right: bool)
    requires |p| > 0 && Top(p).Split? && Spans(Top(p), n) && Apart(p)
    ensures Apart(Expand(p, alive, right))
  {
    assert Apart(Rest(p));
    assert Apart(Push(Rest(p), Top(p).left));
  }

  lemma {:induction false} ExpandNarrowing(p: seq<Slice>, n: nat, alive: bool, right: bool)
    requires |p| > 0 && Top(p).Split? && Halved(Top(p)) && Narrowing(p, n)
    ensures Narrowing(Expand(p, alive, right), n)
  {
    var t, rest := Top(p), Rest(p);
    HalvesNarrow(Pow2(|rest|), t.l, t.left.Len(), t.right.Len(), n);
    PushNarrowing(rest, t.left, n);
    if t.right.Split? {
      assert t.left.Split?;
      PushNarrowing(Push(rest, t.left), t.right, n);
    }
  }

  lemma {:induction false} PushNarrowing(p: seq<Slice>, t: Slice, n: nat)
    requires Narrowing(p, n) && Pow2(|p|) * (t.Len() + 1) <= n + 1
    ensures Narrowing(Push(p, t), n)
  {
  }

  lemma {:induction false} HalvesNarrow(k: nat, l: nat, a: nat, b: nat, n: nat)
    requires k * (l + 1) <= n + 1 && a <= l && 2 * (b + 1) <= l + 1
    ensures k * (a + 1) <= n + 1 && (2 * k) * (b + 1) <= n + 1
  {
    ScaleUp(k, a + 1, l + 1);
    ScaleUp(k, 2 * (b + 1), l + 1);
    assert (2 * k) * (b + 1) == k * (2 * (b + 1));
  }

  lemma {:induction false} ScaleUp(k: nat, a: nat, b: nat)
    requires a <= b
    ensures k * a <= k * b
  {
  }

  /** At every point of every query on `n` elements, 2^(length of the stack) <= n + 1. */
  lemma {:induction false} StackBound(p: seq<Slice>, n: nat)
    requires Narrowing(p, n) && forall j | 0 <= j < |p| :: p[j].Split?
    ensures Pow2(|p|) <= n + 1
  {
    if |p| > 0 {
      assert Pow2(|p| - 1) * (Top(p).Len() + 1) <= n + 1;
      ScaleUp(Pow2(|p| - 1), 2, Top(p).Len() + 1);
    }
  }

  // ----------------------------------------------------------------- visits

  /** How many slices the iterator pops from `t` on: `t` itself and all below it. */
  ghost function Visits<V>(nodes: seq<Node<V>>, q: Query, t: Slice): nat
    requires Spans(t, |nodes|)
    decreases t
  {
    if t.Empty? then 0
    else if !Alive(nodes, q, t) then 1
    else 1 + Visits(nodes, q, t.left) + if GoesRight(nodes, q, t) then Visits(nodes, q, t.right) else 0
  }

  /** How many of those it expands. */
  ghost function Expanded<V>(nodes: seq<Node<V>>, q: Query, t: Slice): nat
    requires Spans(t, |nodes|)
    decreases t
  {
    if t.Empty? || !Alive(nodes, q, t) then 0
    else 1 + Expanded(nodes, q, t.left) + if GoesRight(nodes, q, t) then Expanded(nodes, q, t.right) else 0
  }

  lemma {:induction false} VisitsFromExpanded<V>(nodes: seq<Node<V>>, q: Query, t: Slice)
    requires Spans(t, |nodes|)
    ensures Visits(nodes, q, t) <= 2 * Expanded(nodes, q, t) + if t.Split? then 1 else 0
    decreases t
  {
    if t.Split? && Alive(nodes, q, t) {
      VisitsFromExpanded(nodes, q, t.left);
      VisitsFromExpanded(nodes, q, t.right);
    }
  }

  /** Depth of the halving: floor(log2 l) + 1 for l >= 1. */
  ghost function Levels(l: nat): nat {
    if l == 0 then 0 else 1 + Levels(l / 2)
  }

  lemma {:induction false} LevelsAreLog(l: nat)
    requires l > 0
    ensures Levels(l) > 0 && Pow2(Levels(l) - 1) <= l < Pow2(Levels(l))
  {
    if l > 1 {
      LevelsAreLog(l / 2);
    }
  }

  lemma {:induction false} LevelsGrow(a: nat, b: nat)
    requires a <= b
    ensures Levels(a) <= Levels(b)
  {
    if a > 0 {
      LevelsGrow(a / 2, b / 2);
    }
  }

  /** Nodes on the leftmost, which is a longest, path down a slice. */
  ghost function Depth(t: Slice): nat {
    if t.Empty? then 0 else 1 + Depth(t.left)
  }

  lemma {:induction false} DepthIsLevels(t: Slice)
    requires Halved(t)
    ensures Depth(t) == Levels(t.Len())
  {
    if t.Split? {
      DepthIsLevels(t.left);
    }
  }

  lemma {:induction false} LeftIsDeeper(t: Slice)
    requires t.Split? && Halved(t)
    ensures Depth(t.right) <= Depth(t.left)
  {
    DepthIsLevels(t.left);
    DepthIsLevels(t.right);
    LevelsGrow(t.right.Len(), t.left.Len());
  }

  /** `b` separates the elements the query goes right of from the rest. */
  ghost predicate Boundary<V>(es: seq<Element<V>>, q: Query, b: nat) {
    b <= |es| && forall j {:trigger es[j]} | 0 <= j < |es| :: q.GoRight(es[j].start) <==> j < b
  }

  /** The number of hits in a slice. */
  ghost function HitCount<V>(es: seq<Element<V>>, q: Query, t: Slice): nat
    requires Spans(t, |es|)
    decreases t
  {
    if t.Empty? then 0
    else (if Matches(q, es[t.Mid()]) then 1 else 0) + HitCount(es, q, t.left) + HitCount(es, q, t.right)
  }

  lemma {:induction false} HitCountIsLength<V>(es: seq<Element<V>>, q: Query, t: Slice)
    requires Spans(t, |es|)
    ensures HitCount(es, q, t) == |Hits(es, q, t)|
    decreases t
  {
    if t.Empty? {
      assert |Hits(es, q, t)| == 0;
    } else {
      SplitHits(es, q, t);
      HitCountIsLength(es, q, t.left);
      HitCountIsLength(es, q, t.right);
    }
  }

  lemma {:induction false} HitCounts<V>(es: seq<Element<V>>, q: Query, t: Slice, j: nat)
    requires Spans(t, |es|) && t.s <= j < t.s + t.Len() && Matches(q, es[j])
    ensures HitCount(es, q, t) > 0
    decreases t
  {
    if j < t.Mid() {
      HitCounts(es, q, t.left, j);
    } else if j > t.Mid() {
      HitCounts(es, q, t.right, j);
    }
  }

  /** A slice left of the boundary is only expanded because it holds a hit. */
  lemma {:induction false} AliveHasHit<V>(nodes: seq<Node<V>>, es: seq<Element<V>>, q: Query, b: nat, t: Slice)
    requires t.Split? && Spans(t, |es|) && |nodes| == |es| && nodes[t.Mid()].max == MaxEnd(es, t.s, t.l)
    requires Boundary(es, q, b) && t.s + t.l <= b && Alive(nodes, q, t)
    ensures HitCount(es, q, t) > 0
  {
    MaxEndIsMax(es, t.s, t.l);
    var j :| t.s <= j < t.s + t.l && es[j].end == MaxEnd(es, t.s, t.l);
    HitCounts(es, q, t, j);
  }

  /** The boundary tells which way the iterator turns at a node. */
  ghost predicate Turns<V>(nodes: seq<Node<V>>, q: Query, b: nat) {
    forall j {:trigger nodes[j]} | 0 <= j < |nodes| :: q.GoRight(nodes[j].element.start) <==> j < b
  }

  /** `w` rows of length `k`, added up: a product that proofs need not multiply out. */
  ghost function Area(w: nat, k: nat): nat
    decreases k
  {
    if k == 0 then 0 else w + Area(w, k - 1)
  }

  lemma {:induction false} AreaIsProduct(w: nat, k: nat)
    ensures Area(w, k) == w * k
    decreases k
  {
    if k > 0 {
      AreaIsProduct(w, k - 1);
      assert w * k == w * (k - 1) + w;
    }
  }

  lemma {:induction false} AreaGrows(v: nat, w: nat, j: nat, k: nat)
    requires v <= w && j <= k
    ensures Area(v, j) <= Area(w, k)
    decreases k
  {
    if j == k && k > 0 {
      AreaGrows(v, w, j - 1, k - 1);
    } else if j < k {
      AreaGrows(v, w, j, k - 1);
    }
  }

  lemma {:induction false} AreaAdds(v: nat, w: nat, k: nat)
    ensures Area(v, k) + Area(w, k) == Area(v + w, k)
    decreases k
  {
    if k > 0 {
      AreaAdds(v, w, k - 1);
    }
  }

  /** One more level above two subtrees. */
  lemma {:induction false} OneMoreLevel(wl: nat, wr: nat, kl: nat, kr: nat, w: nat, k: nat)
    requires kl <= k && kr <= k && wl + wr <= w && 0 < w
    ensures 1 + Area(wl, kl) + Area(wr, kr) <= Area(w, 1 + k)
  {
    AreaGrows(wl, wl, kl, k);
    AreaGrows(wr, wr, kr, k);
    AreaAdds(wl, wr, k);
    AreaGrows(wl + wr, w, k, k);
  }

  /** Expansions below a slice that is left of the boundary or straddles it: every
      one is an ancestor (or self) of a hit, or lies on the one boundary path. */
  lemma {:induction false} ExpandedBound<V>(nodes: seq<Node<V>>, es: seq<Element<V>>, q: Query, b: nat, t: Slice)
    requires Spans(t, |es|) && |nodes| == |es| && Augmented(nodes, es, t)
    requires Boundary(es, q, b) && Turns(nodes, q, b) && t.s <= b
    ensures Expanded(nodes, q, t) <= Area(Weight(es, q, b, t), Depth(t))
    decreases t
  {
    if t.Split? && Alive(nodes, q, t) {
      WeightSplits(nodes, es, q, b, t);
      ExpandedBound(nodes, es, q, b, t.left);
      if GoesRight(nodes, q, t) {
        ExpandedBound(nodes, es, q, b, t.right);
      }
      ExpandedAbove(nodes, es, q, b, t);
    }
  }

  /** The bound for a slice from those for the halves that are searched. */
  lemma {:induction false} ExpandedAbove<V>(nodes: seq<Node<V>>, es: seq<Element<V>>, q: Query, b: nat, t: Slice)
    requires t.Split? && Spans(t, |es|) && |nodes| == |es| && Weight(es, q, b, t) > 0
    requires Weight(es, q, b, t.left) + (if GoesRight(nodes, q, t) then Weight(es, q, b, t.right) else 0) <= Weight(es, q, b, t)
    requires Expanded(nodes, q, t.left) <= Area(Weight(es, q, b, t.left), Depth(t.left))
    requires GoesRight(nodes, q, t) ==> Expanded(nodes, q, t.right) <= Area(Weight(es, q, b, t.right), Depth(t.right))
    ensures Expanded(nodes, q, t) <= Area(Weight(es, q, b, t), Depth(t))
  {
    LeftIsDeeper(t);
    var w, k := Weight(es, q, b, t), Depth(t.left);
    if GoesRight(nodes, q, t) {
      OneMoreLevel(Weight(es, q, b, t.left), Weight(es, q, b, t.right), k, Depth(t.right), w, k);
    } else {
      OneMoreLevel(Weight(es, q, b, t.left), 0, k, 0, w, k);
    }
  }

  /** Hits in a slice, plus one if the boundary runs through it. */
  ghost function Weight<V>(es: seq<Element<V>>, q: Query, b: nat, t: Slice): nat
    requires Spans(t, |es|)
  {
    HitCount(es, q, t) + Straddles(t, b)
  }

  lemma {:induction false} WeightSplits<V>(nodes: seq<Node<V>>, es: seq<Element<V>>, q: Query, b: nat, t: Slice)
    requires t.Split? && Spans(t, |es|) && |nodes| == |es| && Augmented(nodes, es, t)
    requires Boundary(es, q, b) && Turns(nodes, q, b) && t.s <= b && Alive(nodes, q, t)
    ensures Weight(es, q, b, t) > 0
    ensures Weight(es, q, b, t.left) + (if GoesRight(nodes, q, t) then Weight(es, q, b, t.right) else 0) <= Weight(es, q, b, t)
    ensures GoesRight(nodes, q, t) ==> t.right.s <= b
  {
    if Straddles(t, b) == 0 {
      AliveHasHit(nodes, es, q, b, t);
    }
  }

  ghost function Straddles(t: Slice, b: nat): nat {
    if t.s <= b < t.s + t.Len() then 1 else 0
  }

  lemma {:induction false} FindBoundary<V>(es: seq<Element<V>>, q: Query) returns (b: nat)
    requires forall i, j | 0 <= i < j < |es| :: es[i].start <= es[j].start
    ensures Boundary(es, q, b)
  {
    b := 0;
    while b < |es| && q.GoRight(es[b].start)
      invariant b <= |es| && forall j | 0 <= j < b :: q.GoRight(es[j].start)
    {
      b := b + 1;
    }
  }

  /** A query with m hits on n >= 1 elements pops at most 2(m+1)(floor(log2 n)+1)+1 slices. */
  lemma {:induction false} VisitBound<V>(nodes: seq<Node<V>>, es: seq<Element<V>>, q: Query, root: Slice)
    requires IsTree(nodes, es, root)
    ensures Visits(nodes, q, root) <= 2 * ((|Hits(es, q, root)| + 1) * Levels(|es|)) + 1
  {
    var b := FindBoundary(es, q);
    FromBoundary(nodes, es, q, b);
    ExpandedBound(nodes, es, q, b, root);
    VisitsFromExpanded(nodes, q, root);
    DepthIsLevels(root);
    HitCountIsLength(es, q, root);
    AreaGrows(Weight(es, q, b, root), |Hits(es, q, root)| + 1, Levels(|es|), Levels(|es|));
    AreaIsProduct(|Hits(es, q, root)| + 1, Levels(|es|));
  }

  lemma {:induction false} FromBoundary<V>(nodes: seq<Node<V>>, es: seq<Element<V>>, q: Query, b: nat)
    requires Holds(nodes, es) && Boundary(es, q, b)
    ensures Turns(nodes, q, b)
  {
    forall j | 0 <= j < |nodes| ensures q.GoRight(nodes[j].element.start) <==> j < b {
      assert nodes[j].element == es[j];
    }
  }
}
