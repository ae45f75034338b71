/** What queries cost: left of the boundary exactly the slices that hold a hit are
    expanded, so that no constant times (log n + m) bounds every query with m hits. */
module IntervalCost {
  import opened IntervalTree
  import opened IntervalQuery

  /** The number of slices, from `t` on down, that hold a hit. */
  ghost function HitSlices<V>(es: seq<Element<V>>, q: Query, t: Slice): nat
    requires Spans(t, |es|)
    decreases t
  {
    if t.Empty? || HitCount(es, q, t) == 0 then 0 else 1 + HitSlices(es, q, t.left) + HitSlices(es, q, t.right)
  }

  lemma {:induction false} NoneMatch<V>(es: seq<Element<V>>, q: Query, t: Slice)
    requires Spans(t, |es|) && forall j {:trigger es[j]} | t.s <= j < t.s + t.Len() :: !Matches(q, es[j])
    ensures HitCount(es, q, t) == 0 && HitSlices(es, q, t) == 0
    decreases t
  {
    if t.Split? {
      NoneMatch(es, q, t.left);
      NoneMatch(es, q, t.right);
    }
  }

  /** The converse of `AliveHasHit`: a slice with a hit is never cut off. */
  lemma {:induction false} HitIsAlive<V>(nodes: seq<Node<V>>, es: seq<Element<V>>, q: Query, t: Slice)
    requires t.Split? && Spans(t, |es|) && |nodes| == |es| && nodes[t.Mid()].max == MaxEnd(es, t.s, t.l)
    requires HitCount(es, q, t) > 0
    ensures Alive(nodes, q, t)
  {
    MaxEndIsMax(es, t.s, t.l);
    if !Alive(nodes, q, t) {
      NoneMatch(es, q, t);
    }
  }

  /** Left of the boundary, what is expanded is what holds a hit. */
  lemma {:induction false} ExpandedExact<V>(nodes: seq<Node<V>>, es: seq<Element<V>>, q: Query, b: nat, t: Slice)
    requires Spans(t, |es|) && |nodes| == |es| && Augmented(nodes, es, t)
    requires Boundary(es, q, b) && Turns(nodes, q, b) && t.s + t.Len() <= b
    ensures Expanded(nodes, q, t) == HitSlices(es, q, t)
    decreases t
  {
    if t.Split? {
      if Alive(nodes, q, t) {
        AliveHasHit(nodes, es, q, b, t);
        ExpandedExact(nodes, es, q, b, t.left);
        ExpandedExact(nodes, es, q, b, t.right);
      } else if HitCount(es, q, t) > 0 {
        HitIsAlive(nodes, es, q, t);
      }
    }
  }

  lemma {:induction false} VisitsAtLeast<V>(nodes: seq<Node<V>>, q: Query, t: Slice)
    requires Spans(t, |nodes|)
    ensures Visits(nodes, q, t) >= Expanded(nodes, q, t)
    decreases t
  {
    if t.Split? && Alive(nodes, q, t) {
      VisitsAtLeast(nodes, q, t.left);
      VisitsAtLeast(nodes, q, t.right);
    }
  }

  // --------------------------------------------------------- a costly family

  /** Full trees: every level is filled. */
  ghost predicate Full(t: Slice, d: nat)
    decreases d
  {
    if d == 0 then t.Empty? else t.Split? && Full(t.left, d - 1) && Full(t.right, d - 1)
  }

  lemma {:induction false} FullIfLength(t: Slice, d: nat)
    requires Halved(t) && t.Len() + 1 == Pow2(d)
    ensures Full(t, d)
    decreases d
  {
    if d > 0 {
      FullIfLength(t.left, d - 1);
      FullIfLength(t.right, d - 1);
    }
  }

  /** The only hit is the first element. */
  ghost predicate HitsFirst<V>(es: seq<Element<V>>, q: Query, t: Slice)
    requires Spans(t, |es|)
  {
    forall j {:trigger es[j]} | t.s <= j < t.s + t.Len() :: Matches(q, es[j]) <==> j == t.s
  }

  /** Below `k` levels without a hit, every slice hits its first element. */
  ghost predicate Fan<V>(es: seq<Element<V>>, q: Query, k: nat, t: Slice)
    requires Spans(t, |es|)
    decreases k
  {
    if k == 0 then HitsFirst(es, q, t)
    else t.Split? && !Matches(q, es[t.Mid()]) && Fan(es, q, k - 1, t.left) && Fan(es, q, k - 1, t.right)
  }

  lemma {:induction false} FirstCounts<V>(es: seq<Element<V>>, q: Query, d: nat, t: Slice)
    requires Spans(t, |es|) && Full(t, d) && HitsFirst(es, q, t)
    ensures HitCount(es, q, t) == (if d > 0 then 1 else 0) && HitSlices(es, q, t) == d
    decreases d
  {
    if d > 0 {
      FirstCounts(es, q, d - 1, t.left);
      NoneMatch(es, q, t.right);
      assert Matches(q, es[t.Mid()]) <==> t.left.Len() == 0;
    }
  }

  /** Slices that hold a hit, in a fan of `k` levels over full trees of `d`. */
  ghost function FanSlices(k: nat, d: nat): nat {
    if k == 0 then d else 1 + FanSlices(k - 1, d) + FanSlices(k - 1, d)
  }

  /** A fan has `2^k` hits. */
  lemma {:induction false} FanCounts<V>(es: seq<Element<V>>, q: Query, k: nat, d: nat, t: Slice)
    requires d > 0 && Spans(t, |es|) && Full(t, k + d) && Fan(es, q, k, t)
    ensures HitCount(es, q, t) == Pow2(k) && HitSlices(es, q, t) == FanSlices(k, d)
    decreases k
  {
    if k == 0 {
      FirstCounts(es, q, d, t);
    } else {
      FanCounts(es, q, k - 1, d, t.left);
      FanCounts(es, q, k - 1, d, t.right);
      CountsAdd(es, q, t);
    }
  }

  /** Each of the `2^k` hits has `d` slices to itself. */
  lemma {:induction false} FanSlicesCount(k: nat, d: nat)
    ensures FanSlices(k, d) + 1 == Area(d + 1, Pow2(k))
    decreases k
  {
    if k == 0 {
      AreaIsProduct(d + 1, Pow2(k));
    } else {
      FanSlicesCount(k - 1, d);
      AreaDoubles(d + 1, Pow2(k - 1));
    }
  }

  lemma {:induction false} CountsAdd<V>(es: seq<Element<V>>, q: Query, t: Slice)
    requires t.Split? && Spans(t, |es|) && !Matches(q, es[t.Mid()])
    ensures HitCount(es, q, t) == HitCount(es, q, t.left) + HitCount(es, q, t.right)
    ensures HitCount(es, q, t) > 0 ==> HitSlices(es, q, t) == 1 + HitSlices(es, q, t.left) + HitSlices(es, q, t.right)
  {
  }

  lemma {:induction false} AreaDoubles(w: nat, p: nat)
    ensures Area(w, 2 * p) == 2 * Area(w, p)
  {
    AreaIsProduct(w, p);
    AreaIsProduct(w, 2 * p);
    Doubles(w, p);
  }

  lemma {:induction false} Doubles(c: nat, p: nat)
    ensures c * (2 * p) == 2 * (c * p)
  {
  }

  /** First positions of the slices `k` levels down. */
  ghost function Starts(t: Slice, k: nat): set<nat>
    decreases k
  {
    if t.Empty? then {} else if k == 0 then {t.s} else Starts(t.left, k - 1) + Starts(t.right, k - 1)
  }

  lemma {:induction false} StartsInside(t: Slice, k: nat, j: nat)
    requires Halved(t) && j in Starts(t, k)
    ensures t.s <= j < t.s + t.Len() && (k > 0 ==> t.Split? && j != t.Mid())
    decreases k
  {
    if k > 0 {
      if j in Starts(t.left, k - 1) {
        StartsInside(t.left, k - 1, j);
      } else {
        StartsInside(t.right, k - 1, j);
      }
    }
  }

  lemma {:induction false} StartsFan<V>(es: seq<Element<V>>, q: Query, k: nat, d: nat, t: Slice)
    requires Spans(t, |es|) && Full(t, k + d) && d > 0
    requires forall j {:trigger es[j]} | t.s <= j < t.s + t.Len() :: Matches(q, es[j]) <==> j in Starts(t, k)
    ensures Fan(es, q, k, t)
    decreases k
  {
    if k > 0 {
      if t.Mid() in Starts(t, k) {
        StartsInside(t, k, t.Mid());
      }
      StartsSplit(es, q, k, t);
      StartsFan(es, q, k - 1, d, t.left);
      StartsFan(es, q, k - 1, d, t.right);
    }
  }

  lemma {:induction false} StartsSplit<V>(es: seq<Element<V>>, q: Query, k: nat, t: Slice)
    requires t.Split? && Spans(t, |es|) && k > 0
    requires forall j {:trigger es[j]} | t.s <= j < t.s + t.Len() :: Matches(q, es[j]) <==> j in Starts(t, k)
    ensures forall j {:trigger es[j]} | t.left.s <= j < t.left.s + t.left.Len() :: Matches(q, es[j]) <==> j in Starts(t.left, k - 1)
    ensures forall j {:trigger es[j]} | t.right.s <= j < t.right.s + t.right.Len() :: Matches(q, es[j]) <==> j in Starts(t.right, k - 1)
  {
    var below := k - 1;
    assert Starts(t, k) == Starts(t.left, below) + Starts(t.right, below);
    forall j | j in Starts(t.left, below) ensures j < t.Mid() {
      StartsInside(t.left, below, j);
    }
    forall j | j in Starts(t.right, below) ensures j > t.Mid() {
      StartsInside(t.right, below, j);
    }
  }

  // -------------------------------------------------------- trees over given elements

  /** The largest end in the slice that position `j` is the middle of. */
  ghost function MaxAt<V>(es: seq<Element<V>>, t: Slice, j: nat): int
    requires Spans(t, |es|) && t.s <= j < t.s + t.Len()
    decreases t
  {
    if j == t.Mid() then MaxEnd(es, t.s, t.l)
    else if j < t.Mid() then MaxAt(es, t.left, j)
    else MaxAt(es, t.right, j)
  }

  lemma {:induction false} MaxAtAugments<V>(nodes: seq<Node<V>>, es: seq<Element<V>>, t: Slice)
    requires Spans(t, |es|) && |nodes| == |es|
    requires forall j {:trigger nodes[j]} | t.s <= j < t.s + t.Len() :: nodes[j].max == MaxAt(es, t, j)
    ensures Augmented(nodes, es, t)
    decreases t
  {
    if t.Split? {
      MaxAtAugments(nodes, es, t.left);
      MaxAtAugments(nodes, es, t.right);
      assert nodes[t.Mid()].max == MaxAt(es, t, t.Mid());
    }
  }

  ghost function NodesOf<V>(es: seq<Element<V>>): (nodes: seq<Node<V>>)
    ensures |nodes| == |es|
    ensures forall j {:trigger nodes[j]} | 0 <= j < |nodes| :: nodes[j] == Node(es[j], MaxAt(es, Halving(0, |es|), j))
  {
    seq(|es|, j requires 0 <= j < |es| => Node(es[j], MaxAt(es, Halving(0, |es|), j)))
  }

  ghost predicate InOrder<V>(es: seq<Element<V>>) {
    forall i, j | 0 <= i < j < |es| :: es[i].start <= es[j].start
  }

  /** Over elements in order of start there is a tree. */
  lemma {:induction false} SomeTree<V>(es: seq<Element<V>>)
    requires InOrder(es)
    ensures IsTree(NodesOf(es), es, Halving(0, |es|))
  {
    var nodes := NodesOf(es);
    forall j | 0 <= j < |nodes| ensures nodes[j].element == es[j] && nodes[j].max == MaxAt(es, Halving(0, |es|), j) {
    }
    MaxAtAugments(nodes, es, Halving(0, |es|));
  }

  // ------------------------------------------------------------------- result

  lemma {:induction false} FullDepth(t: Slice, d: nat)
    requires Full(t, d)
    ensures Depth(t) == d
    decreases d
  {
    if d > 0 {
      FullDepth(t.left, d - 1);
    }
  }

  lemma {:induction false} FullTree(n: nat, d: nat)
    requires n + 1 == Pow2(d)
    ensures Full(Halving(0, n), d) && Levels(n) == d
  {
    var t := Halving(0, n);
    FullIfLength(t, d);
    FullDepth(t, d);
    DepthIsLevels(t);
  }

  lemma {:induction false} PowGrows(i: nat)
    requires i > 0
    ensures Pow2(i) >= 2 * i
    decreases i
  {
    if i > 1 {
      PowGrows(i - 1);
    }
  }

  /** On integer bounds a point is the range of length one. */
  lemma {:induction false} RangeOfOne<V>(nodes: seq<Node<V>>, es: seq<Element<V>>, t: Slice, k: int)
    requires Spans(t, |es|) && |nodes| == |es|
    ensures Visits(nodes, Range(k, k + 1), t) == Visits(nodes, Point(k), t)
    ensures Hits(es, Range(k, k + 1), t) == Hits(es, Point(k), t)
    decreases t
  {
    if t.Empty? {
      assert |Hits(es, Range(k, k + 1), t)| == 0 == |Hits(es, Point(k), t)|;
    } else {
      RangeOfOne(nodes, es, t.left, k);
      RangeOfOne(nodes, es, t.right, k);
      SplitHits(es, Range(k, k + 1), t);
      SplitHits(es, Point(k), t);
    }
  }

  /** A query costs more than any constant times (log n + m): for every constant there
      are a tree, even one of distinct starts, a point, and the range of that point. */
  lemma {:induction false} CostsMoreThanLogPlusHits(c: nat) returns (nodes: seq<Node<nat>>, es: seq<Element<nat>>, root: Slice, k: int)
    ensures IsTree(nodes, es, root)
    ensures forall j {:trigger es[j]} | 0 <= j < |es| :: es[j].start == j
    ensures forall q {:trigger Hits(es, q, root)} | q == Point(k) || q == Range(k, k + 1) ::
      Visits(nodes, q, root) > c * (Levels(|es|) + |Hits(es, q, root)|)
  {
    var visits, hits;
    nodes, es, root, visits, hits := FanBuilt(2 * c + 1);
    k := root.Len();
    Outgrows(c, 2 * c + 1, visits, Levels(|es|), hits);
    RangeOfOne(nodes, es, root, k);
  }

  lemma {:induction false} FanBuilt(i: nat)
    returns (nodes: seq<Node<nat>>, es: seq<Element<nat>>, root: Slice, visits: nat, hits: nat)
    requires i > 0
    ensures IsTree(nodes, es, root) && Levels(|es|) == i + i
    ensures forall j {:trigger es[j]} | 0 <= j < |es| :: es[j].start == j
    ensures hits == |Hits(es, Point(root.Len()), root)| && hits >= 2 * i
    ensures visits == Visits(nodes, Point(root.Len()), root) && visits + 1 >= Area(i + 1, hits)
  {
    es := FanElements(i);
    root, nodes := Halving(0, |es|), NodesOf(es);
    FullTree(|es|, i + i);
    FanTree(i, es, root);
    PowGrows(i);
    visits, hits := Visits(nodes, Point(root.Len()), root), |Hits(es, Point(root.Len()), root)|;
  }

  /** A full tree of `2 i` levels with one hit in each of the `2^i` slices half way
      down: every hit is reached on a path of its own. */
  lemma {:induction false} FanTree(i: nat, es: seq<Element<nat>>, root: Slice)
    requires i > 0 && es == FanElements(i) && root == Halving(0, |es|) && Full(root, i + i)
    ensures IsTree(NodesOf(es), es, root)
    ensures |Hits(es, Point(|es|), root)| == Pow2(i)
    ensures Visits(NodesOf(es), Point(|es|), root) + 1 >= Area(i + 1, Pow2(i))
  {
    SomeTree(es);
    FanHits(es, Point(|es|), i, root);
    FromBoundary(NodesOf(es), es, Point(|es|), |es|);
    ExpandedExact(NodesOf(es), es, Point(|es|), |es|, root);
    VisitsAtLeast(NodesOf(es), Point(|es|), root);
  }

  lemma {:induction false} FanHits(es: seq<Element<nat>>, q: Query, i: nat, root: Slice)
    requires i > 0 && Spans(root, |es|) && Full(root, i + i)
    requires forall j {:trigger es[j]} | root.s <= j < root.s + root.Len() :: Matches(q, es[j]) <==> j in Starts(root, i)
    ensures |Hits(es, q, root)| == Pow2(i) && HitSlices(es, q, root) + 1 == Area(i + 1, Pow2(i))
  {
    StartsFan(es, q, i, i, root);
    FanCounts(es, q, i, i, root);
    FanSlicesCount(i, i);
    HitCountIsLength(es, q, root);
  }

  /** As many elements as fill `2 i` levels, with distinct starts, none beyond their
      number, and ends beyond it at the first positions of the slices half way down. */
  ghost function FanElements(i: nat): (es: seq<Element<nat>>)
    ensures |es| == Pow2(i + i) - 1 && InOrder(es)
    ensures forall j {:trigger es[j]} | 0 <= j < |es| :: es[j].start == j
    ensures forall j {:trigger es[j]} | 0 <= j < |es| :: Matches(Point(|es|), es[j]) <==> j in Starts(Halving(0, |es|), i)
  {
    var n := Pow2(i + i) - 1;
    seq(n, j requires 0 <= j < n => Element(j, if j in Starts(Halving(0, n), i) then n + 1 else j, 0))
  }

  lemma {:induction false} Outgrows(c: nat, i: nat, visits: nat, levels: nat, hits: nat)
    requires i == 2 * c + 1 && hits >= 2 * i && levels == 2 * i && visits + 1 >= Area(i + 1, hits)
    ensures visits > c * (levels + hits)
  {
    AreaIsProduct(i + 1, hits);
    Scale(c, levels + hits, 2 * hits);
    Doubles(c, hits);
    assert (i + 1) * hits == 2 * (c * hits) + 2 * hits;
  }

  lemma {:induction false} Scale(c: nat, a: nat, b: nat)
    requires a <= b
    ensures c * a <= c * b
  {
  }
}
