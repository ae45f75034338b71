/** The interval tree of `src/storage/rkyvtree.rs`: a sorted array whose implicit
    halves form a balanced tree, augmented with the largest range end below each
    node, and an iterator that walks it with an explicit stack. */
module IntervalTree {
  import opened Sorting

  datatype Element<V> = Element(start: int, end: int, value: V)

  datatype Node<V> = Node(element: Element<V>, max: int)

  datatype Query = Point(k: int) | Range(start: int, end: int) {
    function PointOf(): int {
      match this
      case Point(k) => k
      case Range(s, _) => s
    }

    predicate GoRight(s: int) {
      match this
      case Point(k) => k >= s
      case Range(_, e) => e > s
    }

    predicate Intersect<V>(e: Element<V>) {
      match this
      case Point(k) => k < e.end
      case Range(qs, qe) => qe > e.start && qs < e.end
    }
  }

  /** What a query asks for, with no reference to the tree: the element's half-open
      range contains the point, or overlaps the queried half-open range. */
  predicate Matches<V>(q: Query, e: Element<V>) {
    match q
    case Point(k) => e.start <= k < e.end
    case Range(qs, qe) => qe > e.start && qs < e.end
  }

  function Filter<V>(q: Query, es: seq<Element<V>>): seq<Element<V>> {
    if |es| == 0 then []
    else if Matches(q, es[0]) then [es[0]] + Filter(q, es[1..])
    else Filter(q, es[1..])
  }

  lemma {:induction false} FilterConcat<V>(q: Query, a: seq<Element<V>>, b: seq<Element<V>>)
    ensures Filter(q, a + b) == Filter(q, a) + Filter(q, b)
  {
    if |a| == 0 {
      assert a + b == b;
    } else {
      assert (a + b)[1..] == a[1..] + b;
      FilterConcat(q, a[1..], b);
      var x, fa, fb := [a[0]], Filter(q, a[1..]), Filter(q, b);
      assert x + (fa + fb) == (x + fa) + fb;
    }
  }

  // ---------------------------------------------------------------- building

  type pos = l: nat | 0 < l witness 1

  /** A slice of `l` nodes from `s` on, together with the two slices around its
      middle, and so on down: a node of the implicit tree and everything below it. */
  datatype Slice = Empty(s: nat) | Split(s: nat, l: pos, left: Slice, right: Slice) {
    function Len(): nat {
      if Empty? then 0 else l
    }

    function Mid(): nat
      requires Split?
    {
      s + left.Len()
    }
  }

  /** The middle node is the one at half the slice's length. */
  ghost predicate Halved(t: Slice) {
    t.Split? ==>
      && t.left.s == t.s && t.left.Len() == t.l / 2
      && t.right.s == t.s + t.l / 2 + 1 && t.right.Len() + t.l / 2 + 1 == t.l
      && Halved(t.left) && Halved(t.right)
  }

  ghost function Halving(s: nat, l: nat): (t: Slice)
    ensures t.s == s && t.Len() == l && Halved(t)
    decreases l
  {
    if l == 0 then Empty(s) else Split(s, l, Halving(s, l / 2), Halving(s + l / 2 + 1, l - l / 2 - 1))
  }

  ghost predicate Spans(t: Slice, n: nat) {
    t.s + t.Len() <= n && Halved(t)
  }

  function Max(a: int, b: int): int {
    if a >= b then a else b
  }

  /** The largest range end among the `l` elements from `s` on. */
  ghost function MaxEnd<V>(es: seq<Element<V>>, s: nat, l: nat): int
    requires 0 < l && s + l <= |es|
    decreases l
  {
    var last := es[s + l - 1].end;
    if l == 1 then last else Max(MaxEnd(es, s, l - 1), last)
  }

  lemma {:induction false} MaxEndIsMax<V>(es: seq<Element<V>>, s: nat, l: nat)
    requires 0 < l && s + l <= |es|
    ensures forall j | s <= j < s + l :: es[j].end <= MaxEnd(es, s, l)
    ensures exists j :: s <= j < s + l && es[j].end == MaxEnd(es, s, l)
    decreases l
  {
    if l == 1 {
      assert es[s].end == MaxEnd(es, s, l);
    } else {
      MaxEndIsMax(es, s, l - 1);
      assert es[s + l - 1].end <= MaxEnd(es, s, l);
    }
  }

  lemma {:induction false} MaxEndSplit<V>(es: seq<Element<V>>, s: nat, k: nat, m: nat)
    requires 0 < k && 0 < m && s + k + m <= |es|
    ensures MaxEnd(es, s, k + m) == Max(MaxEnd(es, s, k), MaxEnd(es, s + k, m))
    decreases m
  {
    if m > 1 {
      MaxEndSplit(es, s, k, m - 1);
    }
  }

  /** The largest end of a slice comes from its middle or from one of its halves. */
  lemma {:induction false} WholeMax<V>(es: seq<Element<V>>, t: Slice)
    requires t.Split? && Spans(t, |es|)
    ensures MaxEnd(es, t.s, t.l) == WithRight(es, t, WithLeft(es, t))
  {
    MaxOfThree(es, t.s, t.left.Len(), t.right.Len());
  }

  lemma {:induction false} MaxOfThree<V>(es: seq<Element<V>>, s: nat, l: nat, r: nat)
    requires s + l + 1 + r <= |es|
    ensures
      var own := es[s + l].end;
      var withLeft := if l > 0 then Max(own, MaxEnd(es, s, l)) else own;
      MaxEnd(es, s, l + 1 + r) == if r > 0 then Max(withLeft, MaxEnd(es, s + l + 1, r)) else withLeft
  {
    if r > 0 {
      MaxEndSplit(es, s, l + 1, r);
    }
  }

  ghost function WithLeft<V>(es: seq<Element<V>>, t: Slice): int
    requires t.Split? && Spans(t, |es|)
  {
    var own := es[t.Mid()].end;
    if t.left.Split? then Max(own, MaxEnd(es, t.s, t.left.l)) else own
  }

  ghost function WithRight<V>(es: seq<Element<V>>, t: Slice, m: int): int
    requires t.Split? && Spans(t, |es|)
  {
    if t.right.Split? then Max(m, MaxEnd(es, t.right.s, t.right.l)) else m
  }

  /** Every node of the slice holds the largest end in the slice it is the middle of. */
  ghost predicate Augmented<V>(nodes: seq<Node<V>>, es: seq<Element<V>>, t: Slice)
    requires Spans(t, |es|) && |nodes| == |es|
    decreases t
  {
    t.Split? ==>
      && nodes[t.Mid()].max == MaxEnd(es, t.s, t.l)
      && Augmented(nodes, es, t.left)
      && Augmented(nodes, es, t.right)
  }

  /** A slice is augmented once its halves are and its middle was raised to both. */
  lemma {:induction false} WholeAugmented<V>(nodes: seq<Node<V>>, es: seq<Element<V>>, t: Slice)
    requires t.Split? && Spans(t, |es|) && |nodes| == |es|
    requires Augmented(nodes, es, t.left) && Augmented(nodes, es, t.right)
    requires nodes[t.Mid()].max == WithRight(es, t, WithLeft(es, t))
    ensures Augmented(nodes, es, t) && nodes[t.Mid()].max == MaxEnd(es, t.s, t.l)
  {
    WholeMax(es, t);
  }

  ghost predicate SameMax<V>(a: seq<Node<V>>, b: seq<Node<V>>, s: nat, l: nat)
    requires s + l <= |a| == |b|
  {
    forall j {:trigger b[j]} | s <= j < s + l :: b[j].max == a[j].max
  }

  lemma {:induction false} AugmentedFrame<V>(a: seq<Node<V>>, b: seq<Node<V>>, es: seq<Element<V>>, t: Slice)
    requires Spans(t, |es|) && |a| == |b| == |es| && SameMax(a, b, t.s, t.Len())
    requires Augmented(a, es, t)
    ensures Augmented(b, es, t)
    decreases t
  {
    if t.Split? {
      assert b[t.Mid()].max == a[t.Mid()].max;
      AugmentedFrame(a, b, es, t.left);
      AugmentedFrame(a, b, es, t.right);
    }
  }

  /** `b` is `a` with only the `max` fields inside the segment rewritten. */
  ghost predicate Refitted<V>(a: seq<Node<V>>, b: seq<Node<V>>, s: nat, l: nat) {
    && |a| == |b|
    && (forall j {:trigger b[j]} | 0 <= j < |b| ::
          b[j].element == a[j].element && (s <= j < s + l || b[j].max == a[j].max))
  }

  /** Initially each node's `max` is its own end. */
  ghost predicate Unfitted<V>(a: seq<Node<V>>, es: seq<Element<V>>, s: nat, l: nat)
    requires s + l <= |a| == |es|
  {
    forall j {:trigger a[j]} | s <= j < s + l :: a[j].max == es[j].end
  }

  /** `nodes[i].max = cmp::max(nodes[i].max, m)` */
  method RaiseMax<V>(nodes: array<Node<V>>, i: nat, m: int)
    requires i < nodes.Length
    modifies nodes
    ensures Refitted(old(nodes[..]), nodes[..], i, 1)
    ensures nodes[i].max == Max(old(nodes[i].max), m)
  {
    nodes[i] := nodes[i].(max := Max(nodes[i].max, m));
  }

  /** In-place augmentation of the slice of `l` nodes from `s` on; the split into
      two sub-slices is the recursion on the two halves. `t` names the slice and
      `es` the elements in the array, which stay where they are. */
  method UpdateMax<V>(nodes: array<Node<V>>, s: nat, l: nat, ghost t: Slice, ghost es: seq<Element<V>>) returns (m: int)
    requires t.Split? && t.s == s && t.l == l && nodes.Length == |es| && Spans(t, |es|)
    requires Unfitted(nodes[..], es, s, l)
    modifies nodes
    ensures Refitted(old(nodes[..]), nodes[..], s, l)
    ensures Augmented(nodes[..], es, t)
    ensures m == MaxEnd(es, s, l)
    decreases l, 1
  {
    var i := l / 2;
    if l > 1 {
      UpdateLeft(nodes, s, i, t, es);
      ghost var h := nodes[..];
      UpdateRight(nodes, s, i, l, t, es);
      AugmentedFrame(h, nodes[..], es, t.left);
    }
    WholeAugmented(nodes[..], es, t);
    m := nodes[s + i].max;
  }

  method UpdateLeft<V>(nodes: array<Node<V>>, s: nat, i: nat, ghost t: Slice, ghost es: seq<Element<V>>)
    requires t.Split? && t.s == s && i == t.left.Len() && nodes.Length == |es| && Spans(t, |es|)
    requires Unfitted(nodes[..], es, s, i + 1)
    modifies nodes
    ensures Refitted(old(nodes[..]), nodes[..], s, i + 1)
    ensures Augmented(nodes[..], es, t.left)
    ensures nodes[s + i].max == WithLeft(es, t)
    decreases t.l, 0
  {
    if i > 0 {
      var left := UpdateMax(nodes, s, i, t.left, es);
      ghost var h := nodes[..];
      RaiseMax(nodes, s + i, left);
      AugmentedFrame(h, nodes[..], es, t.left);
    }
  }

  method UpdateRight<V>(nodes: array<Node<V>>, s: nat, i: nat, l: nat, ghost t: Slice, ghost es: seq<Element<V>>)
    requires t.Split? && t.s == s && t.l == l && i == t.left.Len() && nodes.Length == |es| && Spans(t, |es|)
    requires Unfitted(nodes[..], es, s + i + 1, t.right.Len())
    modifies nodes
    ensures Refitted(old(nodes[..]), nodes[..], s + i, t.right.Len() + 1)
    ensures Augmented(nodes[..], es, t.right)
    ensures nodes[s + i].max == WithRight(es, t, old(nodes[s + i].max))
    decreases l, 0
  {
    if l - i - 1 > 0 {
      var right := UpdateMax(nodes, s + i + 1, l - i - 1, t.right, es);
      ghost var h := nodes[..];
      RaiseMax(nodes, s + i, right);
      AugmentedFrame(h, nodes[..], es, t.right);
    }
  }

  /** The array holds the elements `es`, in order of range start. */
  ghost predicate Holds<V>(nodes: seq<Node<V>>, es: seq<Element<V>>) {
    && |nodes| == |es|
    && (forall i {:trigger nodes[i]} | 0 <= i < |nodes| :: nodes[i].element == es[i])
    && (forall i, j | 0 <= i < j < |es| :: es[i].start <= es[j].start)
  }

  /** `root` is the implicit tree over all of the array, and its nodes are augmented. */
  ghost predicate IsTree<V>(nodes: seq<Node<V>>, es: seq<Element<V>>, root: Slice) {
    && Holds(nodes, es)
    && root.s == 0 && root.Len() == |es| && Halved(root)
    && Augmented(nodes, es, root)
  }

  /** `Tree::from_iter`: each element starts with its own end as `max`, the nodes
      are sorted by range start and then augmented. */
  method FromIter<V>(elements: seq<Element<V>>)
    returns (nodes: array<Node<V>>, ghost es: seq<Element<V>>, ghost root: Slice)
    ensures fresh(nodes)
    ensures multiset(es) == multiset(elements)
    ensures IsTree(nodes[..], es, root)
  {
    var sorted := SortByStart(elements);
    es := sorted;
    nodes := new Node<V>[|sorted|](i requires 0 <= i < |sorted| => Node(sorted[i], sorted[i].end));
    root := Halving(0, |es|);
    ghost var g := nodes[..];
    assert Holds(g, es) && Unfitted(g, es, 0, |es|);
    if nodes.Length > 0 {
      var _ := UpdateMax(nodes, 0, nodes.Length, root, es);
      assert Holds(nodes[..], es);
    }
  }

  method SortByStart<V>(elements: seq<Element<V>>) returns (r: seq<Element<V>>)
    ensures multiset(r) == multiset(elements)
    ensures forall i, j | 0 <= i < j < |r| :: r[i].start <= r[j].start
  {
    r := SortByKey((x: int, y: int) => x <= y, (e: Element<V>) => e.start, elements);
  }
}
