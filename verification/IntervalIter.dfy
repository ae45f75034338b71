/** The iterator object over an interval tree, and whole queries run with it. */
module IntervalIter {
  import opened Wrappers
  import opened IntervalTree
  import opened IntervalQuery

  /** Sum of the visits still to be made from the pending slices. */
  ghost function TotalVisits<V>(nodes: seq<Node<V>>, q: Query, p: seq<Slice>): nat
    requires forall j | 0 <= j < |p| :: Spans(p[j], |nodes|)
    decreases |p|
  {
    if |p| == 0 then 0 else Visits(nodes, q, Top(p)) + TotalVisits(nodes, q, Rest(p))
  }

  /** Summed length of the pending slices. */
  ghost function TotalLength(p: seq<Slice>): nat
    decreases |p|
  {
    if |p| == 0 then 0 else Top(p).Len() + TotalLength(Rest(p))
  }

  lemma {:induction false} TotalsPush<V>(nodes: seq<Node<V>>, q: Query, p: seq<Slice>, t: Slice)
    requires Spans(t, |nodes|)
    requires forall j | 0 <= j < |p| :: Spans(p[j], |nodes|)
    ensures TotalVisits(nodes, q, Push(p, t)) == Visits(nodes, q, t) + TotalVisits(nodes, q, p)
    ensures TotalLength(Push(p, t)) == t.Len() + TotalLength(p)
  {
    if t.Split? {
      assert Rest(p + [t]) == p;
    }
  }

  /** Each iteration accounts for one visit and shortens what is pending. */
  lemma {:induction false} TotalsExpand<V>(nodes: seq<Node<V>>, q: Query, p: seq<Slice>)
    requires |p| > 0 && Top(p).Split? && Spans(Top(p), |nodes|)
    requires forall j | 0 <= j < |p| :: Spans(p[j], |nodes|)
    ensures
      var after := Expand(p, Alive(nodes, q, Top(p)), GoesRight(nodes, q, Top(p)));
      && (forall j | 0 <= j < |after| :: Spans(after[j], |nodes|))
      && TotalVisits(nodes, q, p) == 1 + TotalVisits(nodes, q, after)
      && TotalLength(after) < TotalLength(p)
  {
    var t, rest := Top(p), Rest(p);
    if Alive(nodes, q, t) {
      TotalsPush(nodes, q, rest, t.left);
      if GoesRight(nodes, q, t) {
        TotalsPush(nodes, q, Push(rest, t.left), t.right);
      }
    }
  }

  ghost predicate StackOk<V>(nodes: seq<Node<V>>, es: seq<Element<V>>, p: seq<Slice>)
    requires |nodes| == |es|
  {
    AllGood(nodes, es, p) && Apart(p) && Narrowing(p, |es|)
  }

  ghost predicate Mirrors(todo: seq<(nat, nat)>, p: seq<Slice>) {
    |todo| == |p| && forall j | 0 <= j < |p| :: todo[j] == (p[j].s, p[j].Len())
  }

  ghost function StartStack(root: Slice): (p: seq<Slice>)
    ensures |p| == (if root.Split? then 1 else 0) && forall j | 0 <= j < |p| :: p[j] == root
  {
    seq(if root.Split? then 1 else 0, _ => root)
  }

  /** The initial stack holds the whole tree, unless that is empty. */
  lemma {:induction false} StartsWhole<V>(nodes: seq<Node<V>>, es: seq<Element<V>>, q: Query, root: Slice, p: seq<Slice>)
    requires |nodes| == |es| && Spans(root, |es|)
    requires |p| == (if root.Split? then 1 else 0) && forall j | 0 <= j < |p| :: p[j] == root
    ensures Remaining(es, q, p) == Hits(es, q, root)
    ensures TotalVisits(nodes, q, p) == Visits(nodes, q, root)
  {
    if root.Split? {
      assert |Rest(p)| == 0;
      assert |Remaining(es, q, Rest(p))| == 0;
    } else {
      assert |Hits(es, q, root)| == 0;
    }
  }

  lemma {:induction false} StartsOk<V>(nodes: seq<Node<V>>, es: seq<Element<V>>, root: Slice, p: seq<Slice>)
    requires |nodes| == |es| && Spans(root, |es|) && Augmented(nodes, es, root)
    requires |p| == (if root.Split? then 1 else 0) && forall j | 0 <= j < |p| :: p[j] == root
    ensures StackOk(nodes, es, p) && AllBelow(root, p)
  {
    assert Below(root, root);
    forall j | 0 <= j < |p| ensures Pow2(j) * (p[j].Len() + 1) <= |es| + 1 {
      BottomFactor(j);
      assert p[j] == root;
    }
    assert Narrowing(p, |es|);
    assert AllGood(nodes, es, p);
  }

  lemma {:induction false} BottomFactor(j: nat)
    requires j < 1
    ensures Pow2(j) == 1
  {
  }

  /** `ArchivedTree::todo` */
  method InitTodo(n: nat) returns (todo: seq<(nat, nat)>)
    ensures |todo| == if n > 0 then 1 else 0
    ensures n > 0 ==> todo[0] == (0, n)
  {
    todo := [];
    if n > 0 {
      todo := todo + [(0, n)];
    }
  }

  /** The `l` nodes from `s` on are a non-empty slice of the halving tree `root`, and
      every node in it holds the largest end of the part it is the middle of. */
  ghost predicate IsSegment<V>(nodes: seq<Node<V>>, es: seq<Element<V>>, root: Slice, s: nat, l: nat) {
    exists t {:trigger Below(t, root)} ::
      && Below(t, root) && t.Split? && t.s == s && t.Len() == l
      && |nodes| == |es| && Spans(t, |es|) && Augmented(nodes, es, t)
  }

  /** Pushes a half, unless it is empty. */
  method PushSegment(todo: seq<(nat, nat)>, s: nat, size: nat, ghost p: seq<Slice>, ghost t: Slice) returns (r: seq<(nat, nat)>)
    requires Mirrors(todo, p) && t.s == s && t.Len() == size
    ensures Mirrors(r, Push(p, t))
  {
    r := if size > 0 then todo + [(s, size)] else todo;
  }

  class QueryIter<V> {
    const tree: seq<Node<V>>
    const query: Query
    var todo: seq<(nat, nat)>
    ghost const es: seq<Element<V>>
    ghost const root: Slice
    ghost var pending: seq<Slice>
    ghost var pops: nat

    ghost predicate Valid()
      reads this
    {
      Holds(tree, es) && StackOk(tree, es, pending) && Mirrors(todo, pending) && AllBelow(root, pending)
    }

    /** Hits not yet returned. */
    ghost function Upcoming(): seq<Element<V>>
      requires Valid()
      reads this
    {
      Remaining(es, query, pending)
    }

    /** Pops made, plus pops still to be made. */
    ghost function Cost(): nat
      requires Valid()
      reads this
    {
      pops + TotalVisits(tree, query, pending)
    }

    /** `ArchivedTree::query` and `query_point`. */
    constructor (tree: seq<Node<V>>, query: Query, ghost es: seq<Element<V>>, ghost root: Slice)
      requires IsTree(tree, es, root)
      ensures Valid()
      ensures this.tree == tree && this.query == query && this.es == es && this.root == root
      ensures Upcoming() == Hits(es, query, root)
      ensures Cost() == Visits(tree, query, root)
    {
      ghost var start := StartStack(root);
      StartsWhole(tree, es, query, root, start);
      StartsOk(tree, es, root, start);
      this.tree, this.query, this.es, this.root := tree, query, es, root;
      pending := start;
      pops := 0;
      var whole := InitTodo(|tree|);
      assert Mirrors(whole, start);
      todo := whole;
    }

    /** The stack never holds more than log2(n + 1) segments; they do not overlap, and
        each is a slice of the halving tree `root`, the one whose nodes are augmented. */
    lemma {:induction false} TodoBound()
      requires Valid()
      ensures Pow2(|todo|) <= |tree| + 1
      ensures forall j, k | 0 <= j < k < |todo| :: todo[j].0 + todo[j].1 < todo[k].0
      ensures forall j {:trigger todo[j]} | 0 <= j < |todo| :: IsSegment(tree, es, root, todo[j].0, todo[j].1)
    {
      StackBound(pending, |es|);
      forall j | 0 <= j < |todo| ensures IsSegment(tree, es, root, todo[j].0, todo[j].1) {
        assert Below(pending[j], root);
      }
    }

    lemma {:induction false} Done()
      requires Valid() && |todo| == 0
      ensures Cost() == pops && |Upcoming()| == 0
    {
    }

    /** One iteration of the loop in `next`: pop a slice, push the halves that can
        hold hits, and report the middle element if it is one. */
    method Step() returns (r: Option<Element<V>>)
      requires Valid() && |todo| > 0
      modifies this`todo, this`pending, this`pops
      ensures Valid()
      ensures
        var t := Top(old(pending));
        && pending == Expand(old(pending), Alive(tree, query, t), GoesRight(tree, query, t))
        && r == if Found(tree, query, t) then Some(es[t.Mid()]) else None
      ensures pops == old(pops) + 1
    {
      ghost var t, cur := Top(pending), Rest(pending);
      StepOk(tree, es, pending, Alive(tree, query, t), GoesRight(tree, query, t));
      ExpandBelow(root, pending, Alive(tree, query, t), GoesRight(tree, query, t));
      r := None;
      var (s, l) := todo[|todo| - 1];
      todo := todo[..|todo| - 1];
      pops := pops + 1;
      assert Mirrors(todo, cur);
      var i := s + l / 2;
      assert t.Mid() == i;
      var node := tree[i];
      if query.PointOf() < node.max {
        todo := PushSegment(todo, s, i - s, cur, t.left);
        cur := Push(cur, t.left);
        if query.GoRight(node.element.start) {
          todo := PushSegment(todo, i + 1, l + s - i - 1, cur, t.right);
          cur := Push(cur, t.right);
          if query.Intersect(node.element) {
            r := Some(node.element);
          }
        }
      }
      pending := cur;
    }

    /** What an iteration means: it costs one pop, shortens what is pending, and returns
        the next hit or leaves the upcoming hits as they are. */
    method Iterate() returns (r: Option<Element<V>>)
      requires Valid() && |todo| > 0
      modifies this`todo, this`pending, this`pops
      ensures Valid() && Cost() == old(Cost()) && TotalLength(pending) < old(TotalLength(pending))
      ensures old(Upcoming()) == if r.Some? then [r.value] + Upcoming() else Upcoming()
    {
      ghost var p := pending;
      r := Step();
      Progress(tree, es, query, p, pending, r);
    }

    /** `QueryIter::next`: the next hit in order, or nothing once all are returned. */
    method Next() returns (r: Option<Element<V>>)
      requires Valid()
      modifies this`todo, this`pending, this`pops
      ensures Valid() && Cost() == old(Cost())
      ensures r.None? ==> |old(Upcoming())| == 0 && |todo| == 0
      ensures r.Some? ==> old(Upcoming()) == [r.value] + Upcoming()
    {
      r := None;
      while |todo| > 0
        invariant Valid() && Cost() == old(Cost()) && Upcoming() == old(Upcoming()) && r.None?
        decreases TotalLength(pending)
      {
        r := Iterate();
        if r.Some? {
          return;
        }
      }
      Done();
    }
  }

  lemma {:induction false} StepOk<V>(nodes: seq<Node<V>>, es: seq<Element<V>>, p: seq<Slice>, alive: bool, right: bool)
    requires |p| > 0 && |nodes| == |es| && StackOk(nodes, es, p)
    ensures StackOk(nodes, es, Expand(p, alive, right))
  {
    ExpandGood(nodes, es, p, alive, right);
    ExpandApart(p, |es|, alive, right);
    ExpandNarrowing(p, |es|, alive, right);
  }

  /** An iteration that finds nothing leaves the upcoming hits as they are; one that
      finds an element has found the first of them. */
  lemma {:induction false} Progress<V>(nodes: seq<Node<V>>, es: seq<Element<V>>, q: Query, p: seq<Slice>, after: seq<Slice>, r: Option<Element<V>>)
    requires |p| > 0 && Holds(nodes, es) && AllGood(nodes, es, p)
    requires after == Expand(p, Alive(nodes, q, Top(p)), GoesRight(nodes, q, Top(p)))
    requires r == if Found(nodes, q, Top(p)) then Some(es[Top(p).Mid()]) else None
    ensures AllGood(nodes, es, after)
    ensures TotalVisits(nodes, q, p) == 1 + TotalVisits(nodes, q, after)
    ensures TotalLength(after) < TotalLength(p)
    ensures Remaining(es, q, p) == if r.Some? then [r.value] + Remaining(es, q, after) else Remaining(es, q, after)
  {
    ExpandGood(nodes, es, p, Alive(nodes, q, Top(p)), GoesRight(nodes, q, Top(p)));
    Expansion(nodes, es, q, Top(p));
    TotalsExpand(nodes, q, p);
    Combine(nodes, es, q, p);
  }

  lemma {:induction false} Combine<V>(nodes: seq<Node<V>>, es: seq<Element<V>>, q: Query, p: seq<Slice>)
    requires |p| > 0 && |nodes| == |es| && AllGood(nodes, es, p) && Exact(nodes, es, q, Top(p))
    requires AllGood(nodes, es, Expand(p, Alive(nodes, q, Top(p)), GoesRight(nodes, q, Top(p))))
    ensures
      var t := Top(p);
      var after := Expand(p, Alive(nodes, q, t), GoesRight(nodes, q, t));
      Remaining(es, q, p) ==
        if Found(nodes, q, t) then [es[t.Mid()]] + Remaining(es, q, after) else Remaining(es, q, after)
  {
    var t := Top(p);
    var alive, right := Alive(nodes, q, t), GoesRight(nodes, q, t);
    ExpandRemaining(es, q, p, alive, right);
    Prepend(es[t.Mid()], HitsBelow(es, q, t, alive, right), Remaining(es, q, Rest(p)));
  }

  lemma {:induction false} Prepend<T>(x: T, a: seq<T>, b: seq<T>)
    ensures ([x] + a) + b == [x] + (a + b)
  {
  }

  /** A whole query, iterated to its end. */
  method QueryAll<V>(tree: seq<Node<V>>, q: Query, ghost es: seq<Element<V>>, ghost root: Slice)
    returns (hits: seq<Element<V>>, ghost pops: nat)
    requires IsTree(tree, es, root)
    ensures hits == Hits(es, q, root)
    ensures pops == Visits(tree, q, root)
  {
    var iter := new QueryIter(tree, q, es, root);
    ghost var all, rest := iter.Upcoming(), iter.Upcoming();
    hits := [];
    var more := true;
    while more
      invariant iter.Valid() && iter.tree == tree && iter.query == q
      invariant iter.Cost() == Visits(tree, q, root)
      invariant rest == iter.Upcoming() && hits + rest == all
      invariant !more ==> |rest| == 0 && |iter.todo| == 0
      decreases more, |rest|
    {
      var next := iter.Next();
      if next.Some? {
        Append(hits, next.value, iter.Upcoming());
        hits := hits + [next.value];
      } else {
        more := false;
        iter.Done();
      }
      rest := iter.Upcoming();
    }
    iter.Done();
    pops := iter.pops;
  }

  lemma {:induction false} Append<T>(a: seq<T>, x: T, b: seq<T>)
    ensures (a + [x]) + b == a + ([x] + b)
  {
  }

  /** Building the tree and querying it returns each stored element that the query
      asks for, once per occurrence, and nothing else. */
  method BuildAndQuery<V>(elements: seq<Element<V>>, q: Query) returns (hits: seq<Element<V>>)
    ensures forall e :: multiset(hits)[e] == if Matches(q, e) then multiset(elements)[e] else 0
  {
    var nodes, es, root := FromIter(elements);
    ghost var pops;
    hits, pops := QueryAll(nodes[..], q, es, root);
    forall e ensures multiset(hits)[e] == if Matches(q, e) then multiset(elements)[e] else 0 {
      HitsExact(elements, es, q, root, e);
    }
  }

  lemma {:induction false} HitsExact<V>(elements: seq<Element<V>>, es: seq<Element<V>>, q: Query, root: Slice, e: Element<V>)
    requires multiset(elements) == multiset(es)
    requires root.s == 0 && root.Len() == |es| && Halved(root)
    ensures multiset(Hits(es, q, root))[e] == if Matches(q, e) then multiset(elements)[e] else 0
  {
    HitsCount(es, q, root, 0, |es|, e);
    assert es[0..|es|] == es;
  }
}
