/** The flame graph as it is in memory: nodes that own their children and are updated
    in place, checked against the tree they stand for. */
module FlameGraph {
  import opened Wrappers
  import opened FlameTrie
  import opened FlameSandwich
  import opened FlameSort

  class FlameNode {
    const id: FrameId
    const skip: nat
    var weight: nat
    var children: seq<FlameNode>

    /** The tree the node stands for, and all the nodes it owns. */
    ghost var model: Tree
    ghost var Repr: set<FlameNode>

    ghost predicate Valid()
      reads this, Repr
      decreases Repr
    {
      && this in Repr
      && model == Tree(id, skip, weight, model.kids) && |model.kids| == |children|
      && (forall i {:trigger children[i]} | 0 <= i < |children| ::
            && children[i] in Repr && children[i].Repr <= Repr && this !in children[i].Repr
            && children[i].Valid() && children[i].model == model.kids[i])
      && (forall i, j {:trigger children[i], children[j]} | 0 <= i < j < |children| :: children[i].Repr !! children[j].Repr)
    }

    constructor (id: FrameId, skip: nat, weight: nat)
      ensures Valid() && Repr == {this}
      ensures this.id == id && this.skip == skip && this.weight == weight && |children| == 0
    {
      this.id, this.skip, this.weight := id, skip, weight;
      children := [];
      model := Tree(id, skip, weight, []);
      Repr := {this};
    }

    /** `children.iter_mut().find(|x| x.id == id)` */
    method FindChild(id: FrameId) returns (i: nat)
      requires Valid()
      ensures i == Find(model.kids, id) <= |children|
    {
      i := 0;
      while i < |children| && children[i].id != id
        invariant i <= |children|
        invariant forall j {:trigger model.kids[j]} | 0 <= j < i :: model.kids[j].id != id
      {
        assert children[i].model == model.kids[i];
        i := i + 1;
      }
      if i < |children| {
        assert children[i].model == model.kids[i];
      }
      FindIsFirst(model.kids, id, i);
    }

    /** Inserts the rest of a trace at this node, which has `k` inline nodes of its own
        frame below it: the loop that moves `node` down one frame at a time. */
    method InsertAt(k: nat, path: seq<Step>, w: nat)
      requires Valid() && Inv(model, k) && StepsOk(path)
      modifies Repr
      ensures Valid() && fresh(Repr - old(Repr))
      ensures model == Insert(old(model), k, path, w)
      decreases |path|, k, 1
    {
      if k > 0 {
        assert children[0].model == model.kids[0];
        InsertBelow(0, k - 1, path, w);
      } else if |path| > 0 {
        var i := FindChild(path[0].id);
        if i < |children| {
          assert children[i].model == model.kids[i];
          InsertBelow(i, children[i].skip, path[1..], w);
        } else {
          InsertNew(path, w);
        }
      }
      AddWeight(w);
    }

    method AddWeight(w: nat)
      requires Valid()
      modifies this`weight, this`model
      ensures Valid()
      ensures model == Tree(id, skip, old(weight) + w, old(model).kids)
    {
      weight := weight + w;
      model := Tree(id, skip, weight, model.kids);
    }

    /** Goes on at the child `i`, with `k` inline nodes below that. */
    method InsertBelow(i: nat, k: nat, path: seq<Step>, w: nat)
      requires Valid() && i < |children| && Inv(model.kids[i], k) && StepsOk(path)
      modifies Repr
      ensures Valid() && fresh(Repr - old(Repr))
      ensures model == Tree(id, skip, old(weight), old(model).kids[i := Insert(old(model).kids[i], k, path, w)])
      decreases |path|, k, 2
    {
      var child := children[i];
      child.InsertAt(k, path, w);
      Repr := Repr + child.Repr;
      model := Tree(id, skip, weight, model.kids[i := child.model]);
    }

    /** Creates the nodes of a frame that is not there yet, and of all frames after it. */
    method InsertNew(path: seq<Step>, w: nat)
      requires Valid() && StepsOk(path) && |path| > 0
      modifies Repr
      ensures Valid() && fresh(Repr - old(Repr))
      ensures model ==
        Tree(id, skip, old(weight), old(model).kids + [Grow(path[0].id, SkipOf(path[0]), path[0].chain - 1, path[1..], w)])
    {
      var child := new FlameNode(path[0].id, SkipOf(path[0]), w);
      child.Extend(path[0].chain - 1, path[1..], w);
      Adopt(child);
    }

    /** `node.children.push(child)` */
    method Adopt(child: FlameNode)
      requires Valid() && child.Valid() && child.Repr !! Repr
      modifies this`children, this`model, this`Repr
      ensures Valid() && Repr == old(Repr) + child.Repr
      ensures model == Tree(id, skip, old(weight), old(model).kids + [child.model])
    {
      children := children + [child];
      Repr := Repr + child.Repr;
      model := Tree(id, skip, weight, model.kids + [child.model]);
    }

    /** Appends new nodes: `k` more inline nodes, then the frames of `path`. */
    method Extend(k: nat, path: seq<Step>, w: nat)
      requires Valid() && |children| == 0 && weight == w && StepsOk(path)
      modifies Repr
      ensures Valid() && fresh(Repr - old(Repr))
      ensures model == Grow(id, skip, k, path, w)
      decreases |path|, k
    {
      if k > 0 {
        var child := new FlameNode(id, 0, w);
        child.Extend(k - 1, path, w);
        Adopt(child);
        assert model.kids == [child.model];
      } else if |path| > 0 {
        var child := new FlameNode(path[0].id, SkipOf(path[0]), w);
        child.Extend(path[0].chain - 1, path[1..], w);
        Adopt(child);
        assert model.kids == [child.model];
      }
    }

    // ------------------------------------------------------------------ sorting

    /** The key of each child: `(-(weight as i64), id)`. */
    method ChildKeys() returns (keys: seq<Key>)
      requires Valid()
      ensures |keys| == |children|
      ensures forall i {:trigger keys[i]} | 0 <= i < |keys| :: keys[i] == KeyOf(model.kids[i].weight, model.kids[i].id)
    {
      keys := [];
      for i := 0 to |children|
        invariant |keys| == i
        invariant forall j {:trigger keys[j]} | 0 <= j < i :: keys[j] == KeyOf(model.kids[j].weight, model.kids[j].id)
      {
        assert children[i].model == model.kids[i];
        keys := keys + [KeyOf(children[i].weight, children[i].id)];
      }
    }

    method Permute(perm: seq<nat>)
      requires Valid() && IsPerm(perm, |children|) && |perm| == |children|
      requires forall i {:trigger perm[i]} | 0 <= i < |perm| :: perm[i] < |children|
      modifies this`children, this`model
      ensures Valid() && model == Tree(id, skip, old(weight), model.kids) && |children| == |perm|
      ensures forall i {:trigger model.kids[i]} | 0 <= i < |perm| :: model.kids[i] == old(model).kids[perm[i]]
    {
      ghost var was, kids := children, model.kids;
      forall i, j | 0 <= i < j < |perm| ensures perm[i] != perm[j] {
        PermInjective(perm, |children|, i, j);
      }
      children := seq(|perm|, i requires 0 <= i < |perm| && perm[i] < |children| reads this => children[perm[i]]);
      model := Tree(id, skip, weight, seq(|perm|, i requires 0 <= i < |perm| && perm[i] < |kids| => kids[perm[i]]));
      forall i, j | 0 <= i < j < |children| ensures children[i].Repr !! children[j].Repr {
        assert children[i] == was[perm[i]] && children[j] == was[perm[j]];
        assert perm[i] != perm[j];
      }
    }

    /** `self.children.sort_unstable_by_key(...)` */
    method SortOnce() returns (ghost perm: seq<nat>)
      requires Valid()
      modifies this`children, this`model
      ensures Valid() && model == Tree(id, skip, old(weight), model.kids)
      ensures Reordered(old(model).kids, perm, model.kids)
    {
      var keys := ChildKeys();
      var order := SortOrder(keys);
      perm := order;
      Permute(order);
    }

    /** `sort_children` */
    method SortChildren()
      requires Valid()
      modifies Repr
      ensures Valid() && Repr == old(Repr)
      ensures SortOf(old(model), model)
      decreases Repr, 1
    {
      ghost var was := model;
      ghost var perm := SortOnce();
      ghost var mid := model.kids;
      var i := 0;
      while i < |children|
        invariant i <= |children| == |mid|
        invariant Valid() && Repr == old(Repr)
        invariant model == Tree(was.id, was.skip, was.weight, model.kids)
        invariant forall j {:trigger model.kids[j]} | 0 <= j < i :: SortOf(mid[j], model.kids[j])
        invariant forall j {:trigger model.kids[j]} | i <= j < |mid| :: model.kids[j] == mid[j]
      {
        SortChild(i);
        i := i + 1;
      }
      assert Reordered(was.kids, perm, mid) && SortsOf(mid, model);
    }

    method SortChild(i: nat)
      requires Valid() && i < |children|
      modifies Repr
      ensures Valid() && Repr == old(Repr) && |children| == old(|children|)
      ensures |model.kids| == |old(model).kids|
      ensures model == Tree(id, skip, old(weight), old(model).kids[i := model.kids[i]])
      ensures SortOf(old(model).kids[i], model.kids[i])
      decreases Repr, 0
    {
      var child := children[i];
      child.SortChildren();
      model := Tree(id, skip, weight, model.kids[i := child.model]);
    }

    // ------------------------------------------------------------------ weights

    /** `weight_children` */
    method ChildrenWeight() returns (sum: nat)
      requires Valid()
      ensures sum == WeightChildren(model.kids)
    {
      sum := 0;
      var i := 0;
      while i < |children|
        invariant i <= |children|
        invariant sum == WeightChildren(model.kids[..i])
      {
        assert children[i].model == model.kids[i];
        assert model.kids[..i + 1] == model.kids[..i] + [model.kids[i]];
        WeightAppend(model.kids[..i], model.kids[i]);
        sum := sum + children[i].weight;
        i := i + 1;
      }
      assert model.kids[..i] == model.kids;
    }

    /** `weight_self`: defined wherever the children weigh no more than the node, which
        is at every node of every tree that is shown. Inside an inline chain it is zero. */
    method SelfWeight(ghost k: nat) returns (self: nat)
      requires Valid() && WeightChildren(model.kids) <= model.weight
      ensures self as int == SelfOf(Some(model))
      ensures k > 0 && Inv(model, k) ==> self == 0
    {
      var below := ChildrenWeight();
      WeightOfOne(model.kids);
      self := weight - below;
    }

    // ------------------------------------------------------------------ sandwich

    /** `insert_caller_path` at this node: `ids` are the callers still to come. */
    method InsertCallers(ids: seq<FrameId>, w: nat)
      requires Valid()
      modifies Repr
      ensures Valid() && fresh(Repr - old(Repr))
      ensures model == InsertFlat(old(model), ids, w)
      decreases |ids|, 1
    {
      if |ids| > 0 {
        var i := FindChild(ids[0]);
        if i < |children| {
          InsertCallersBelow(i, ids[1..], w);
        } else {
          InsertNewCaller(ids, w);
        }
      }
      AddWeight(w);
    }

    method InsertNewCaller(ids: seq<FrameId>, w: nat)
      requires Valid() && |ids| > 0
      modifies Repr
      ensures Valid() && fresh(Repr - old(Repr))
      ensures model == Tree(id, skip, old(weight), old(model).kids + [GrowFlat(ids[0], ids[1..], w)])
    {
      var child := new FlameNode(ids[0], 0, w);
      child.ExtendFlat(ids[1..], w);
      Adopt(child);
    }

    method InsertCallersBelow(i: nat, ids: seq<FrameId>, w: nat)
      requires Valid() && i < |children|
      modifies Repr
      ensures Valid() && fresh(Repr - old(Repr))
      ensures model == Tree(id, skip, old(weight), old(model).kids[i := InsertFlat(old(model).kids[i], ids, w)])
      decreases |ids|, 2
    {
      var child := children[i];
      child.InsertCallers(ids, w);
      Repr := Repr + child.Repr;
      model := Tree(id, skip, weight, model.kids[i := child.model]);
    }

    method ExtendFlat(ids: seq<FrameId>, w: nat)
      requires Valid() && |children| == 0 && weight == w && skip == 0
      modifies Repr
      ensures Valid() && fresh(Repr - old(Repr))
      ensures model == GrowFlat(id, ids, w)
      decreases |ids|
    {
      if |ids| > 0 {
        var child := new FlameNode(ids[0], 0, w);
        child.ExtendFlat(ids[1..], w);
        Adopt(child);
        assert model.kids == [child.model];
      }
    }

    /** `insert_callee_node` */
    method InsertCallee(node: FlameNode)
      requires Valid() && node.Valid() && node.Repr !! Repr
      modifies Repr
      ensures Valid() && fresh(Repr - old(Repr))
      ensures model == Tree(id, skip, old(weight), MergeNode(old(model).kids, node.model))
      decreases node.Repr, 3
    {
      var i := FindChild(node.id);
      if i < |children| {
        MergeInto(i, node);
      } else {
        var child := new FlameNode(node.id, node.skip, node.weight);
        child.MergeChildren(node);
        Adopt(child);
      }
    }

    method MergeInto(i: nat, node: FlameNode)
      requires Valid() && node.Valid() && node.Repr !! Repr && i < |children|
      modifies Repr
      ensures Valid() && fresh(Repr - old(Repr))
      ensures
        var c := old(model).kids[i];
        model == Tree(id, skip, old(weight),
          old(model).kids[i := Tree(c.id, c.skip, c.weight + node.model.weight, MergeAll(c.kids, node.model.kids))])
      decreases node.Repr, 2
    {
      var child := children[i];
      child.Absorb(node);
      Repr := Repr + child.Repr;
      model := Tree(id, skip, weight, model.kids[i := child.model]);
    }

    method Absorb(node: FlameNode)
      requires Valid() && node.Valid() && node.Repr !! Repr
      modifies Repr
      ensures Valid() && fresh(Repr - old(Repr))
      ensures model == Tree(id, skip, old(weight) + node.model.weight, MergeAll(old(model).kids, node.model.kids))
      decreases node.Repr, 1
    {
      AddWeight(node.weight);
      MergeChildren(node);
    }

    /** `insert_callee_subtree` */
    method InsertCalleeSubtree(node: FlameNode)
      requires Valid() && node.Valid() && node.Repr !! Repr
      modifies Repr
      ensures Valid() && fresh(Repr - old(Repr))
      ensures model == Tree(id, skip, old(weight) + WeightChildren(node.model.kids), MergeAll(old(model).kids, node.model.kids))
    {
      var below := node.ChildrenWeight();
      AddWeight(below);
      MergeChildren(node);
    }

    /** The loop that folds all children of `node` into the children of this node. */
    method MergeChildren(node: FlameNode)
      requires Valid() && node.Valid() && node.Repr !! Repr
      modifies Repr
      ensures Valid() && fresh(Repr - old(Repr))
      ensures model == Tree(id, skip, old(weight), MergeAll(old(model).kids, node.model.kids))
      decreases node.Repr, 0
    {
      ghost var was := model;
      var g := 0;
      while g < |node.children|
        invariant g <= |node.children| == |node.model.kids|
        invariant Valid() && fresh(Repr - old(Repr)) && node.Repr !! Repr && node.Valid()
        invariant model == Tree(id, skip, was.weight, MergeAll(was.kids, node.model.kids[..g]))
      {
        assert node.children[g].model == node.model.kids[g];
        InsertCallee(node.children[g]);
        MergeAllLast(was.kids, node.model.kids[..g + 1]);
        assert node.model.kids[..g + 1][..g] == node.model.kids[..g];
        g := g + 1;
      }
      assert node.model.kids[..g] == node.model.kids;
    }
  }

  lemma {:induction false} WeightOfOne(kids: seq<Tree>)
    ensures |kids| == 1 ==> WeightChildren(kids) == kids[0].weight
  {
    if |kids| == 1 {
      assert |kids[1..]| == 0;
    }
  }
}
