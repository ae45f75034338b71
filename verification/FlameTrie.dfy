/** The flame graph as a value: a trie of frame ids with weights, in which one frame
    may stand as a chain of inline nodes, and what inserting a trace does to it. */
module FlameTrie {
  import opened Wrappers
  import opened Bytes

  datatype FrameId = FrameId(fileId: u128, addr: u64)

  /** `skip` is the node's `inline_skip`. */
  datatype Tree = Tree(id: FrameId, skip: nat, weight: nat, kids: seq<Tree>)

  /** A frame as `insert_trace` meets it: its id and the number of records
      `symbolize_frame` returns for it (one for an abort frame). */
  datatype Step = Step(id: FrameId, chain: nat)

  const U16_RANGE := 0x1_0000

  ghost predicate StepsOk(path: seq<Step>) {
    forall i {:trigger path[i]} | 0 <= i < |path| :: 1 <= path[i].chain <= U16_RANGE
  }

  /** `(inline_frames.len() - 1) as u16` */
  function SkipOf(s: Step): (r: nat)
    requires s.chain >= 1
    ensures r < 0x1_0000
  {
    (s.chain - 1) % U16_RANGE
  }

  // ---------------------------------------------------------------- structure

  function WeightChildren(kids: seq<Tree>): nat {
    if |kids| == 0 then 0 else kids[0].weight + WeightChildren(kids[1..])
  }

  lemma {:induction false} WeightAppend(kids: seq<Tree>, c: Tree)
    ensures WeightChildren(kids + [c]) == WeightChildren(kids) + c.weight
  {
    if |kids| == 0 {
      assert (kids + [c])[1..] == kids;
    } else {
      assert (kids + [c])[1..] == kids[1..] + [c];
      WeightAppend(kids[1..], c);
    }
  }

  lemma {:induction false} WeightUpdate(kids: seq<Tree>, i: nat, c: Tree)
    requires i < |kids|
    ensures WeightChildren(kids[i := c]) == WeightChildren(kids) - kids[i].weight + c.weight
  {
    if i == 0 {
      assert kids[i := c][1..] == kids[1..];
    } else {
      assert kids[i := c][1..] == kids[1..][i - 1 := c];
      WeightUpdate(kids[1..], i - 1, c);
    }
  }

  /** Position of the first child with the given id, or the number of children. */
  function Find(kids: seq<Tree>, id: FrameId): (i: nat)
    ensures i <= |kids|
    ensures i < |kids| ==> kids[i].id == id
    ensures forall j {:trigger kids[j]} | 0 <= j < i :: kids[j].id != id
  {
    if |kids| == 0 then 0 else if kids[0].id == id then 0 else 1 + Find(kids[1..], id)
  }

  ghost predicate Distinct(kids: seq<Tree>) {
    forall i, j {:trigger kids[i], kids[j]} | 0 <= i < j < |kids| :: kids[i].id != kids[j].id
  }

  /** What every insertion keeps. A node with `k` inline nodes still below it has one
      child, with its own id and weight; a node at the end of its chain has children
      with distinct ids, each the head of a chain of its own, that weigh no more than
      it does. */
  ghost predicate Inv(t: Tree, k: nat) {
    if k > 0 then
      && |t.kids| == 1
      && t.kids[0].id == t.id && t.kids[0].weight == t.weight && t.kids[0].skip == 0
      && Inv(t.kids[0], k - 1)
    else
      && Distinct(t.kids)
      && WeightChildren(t.kids) <= t.weight
      && forall i {:trigger t.kids[i]} | 0 <= i < |t.kids| :: Inv(t.kids[i], t.kids[i].skip)
  }

  // ---------------------------------------------------------------- insertion

  /** New nodes for a frame (`k` more inline nodes to come) and for the frames after it. */
  ghost function Grow(id: FrameId, skip: nat, k: nat, path: seq<Step>, w: nat): Tree
    requires StepsOk(path)
    decreases |path|, k
  {
    Tree(id, skip, w,
      if k > 0 then [Grow(id, 0, k - 1, path, w)]
      else if |path| == 0 then []
      else [Grow(path[0].id, SkipOf(path[0]), path[0].chain - 1, path[1..], w)])
  }

  /** Inserting the frames of `path` below `t`, which has `k` inline nodes of its own
      frame still below it. */
  ghost function Insert(t: Tree, k: nat, path: seq<Step>, w: nat): Tree
    requires Inv(t, k) && StepsOk(path)
    decreases |path|, k, 1
  {
    if k > 0 then
      Tree(t.id, t.skip, t.weight + w, [Insert(t.kids[0], k - 1, path, w)])
    else if |path| == 0 then
      Tree(t.id, t.skip, t.weight + w, t.kids)
    else
      Tree(t.id, t.skip, t.weight + w, InsertKids(t, path, w))
  }

  ghost function InsertKids(t: Tree, path: seq<Step>, w: nat): seq<Tree>
    requires Inv(t, 0) && StepsOk(path) && |path| > 0
    decreases |path|, 0, 0
  {
    var i := Find(t.kids, path[0].id);
    if i < |t.kids| then t.kids[i := Insert(t.kids[i], t.kids[i].skip, path[1..], w)]
    else t.kids + [Grow(path[0].id, SkipOf(path[0]), path[0].chain - 1, path[1..], w)]
  }

  /** Insertion touches a node's weight and what is below it, nothing else. */
  lemma {:induction false} InsertHead(t: Tree, k: nat, path: seq<Step>, w: nat)
    requires Inv(t, k) && StepsOk(path)
    ensures
      var r := Insert(t, k, path, w);
      r.id == t.id && r.skip == t.skip && r.weight == t.weight + w
  {
  }

  lemma {:induction false} GrowInv(id: FrameId, skip: nat, k: nat, path: seq<Step>, w: nat)
    requires StepsOk(path)
    ensures Inv(Grow(id, skip, k, path, w), k)
    decreases |path|, k
  {
    var t := Grow(id, skip, k, path, w);
    if k > 0 {
      GrowInv(id, 0, k - 1, path, w);
    } else if |path| > 0 {
      GrowInv(path[0].id, SkipOf(path[0]), path[0].chain - 1, path[1..], w);
      assert SkipOf(path[0]) == path[0].chain - 1;
      assert |t.kids[1..]| == 0;
    }
  }

  /** Every insertion keeps the structure, whatever the lengths of the inline chains. */
  lemma {:induction false} InsertInv(t: Tree, k: nat, path: seq<Step>, w: nat)
    requires Inv(t, k) && StepsOk(path)
    ensures Inv(Insert(t, k, path, w), k)
    decreases |path|, k, 1
  {
    if k > 0 {
      InsertInv(t.kids[0], k - 1, path, w);
    } else if |path| > 0 {
      InsertKidsInv(t, path, w);
    }
  }

  lemma {:induction false} InsertKidsInv(t: Tree, path: seq<Step>, w: nat)
    requires Inv(t, 0) && StepsOk(path) && |path| > 0
    ensures Inv(Tree(t.id, t.skip, t.weight + w, InsertKids(t, path, w)), 0)
    decreases |path|, 0, 0
  {
    var i := Find(t.kids, path[0].id);
    if i < |t.kids| {
      var c := Insert(t.kids[i], t.kids[i].skip, path[1..], w);
      InsertInv(t.kids[i], t.kids[i].skip, path[1..], w);
      WeightUpdate(t.kids, i, c);
    } else {
      var c := Grow(path[0].id, SkipOf(path[0]), path[0].chain - 1, path[1..], w);
      GrowInv(path[0].id, SkipOf(path[0]), path[0].chain - 1, path[1..], w);
      assert SkipOf(path[0]) == path[0].chain - 1;
      WeightAppend(t.kids, c);
    }
  }

  // ------------------------------------------------------- meaning of the trie

  /** The node at the end of the chain reached from `t` by the ids `p`. */
  ghost function Reach(t: Tree, k: nat, p: seq<FrameId>): Option<Tree>
    requires Inv(t, k)
    decreases |p|, k
  {
    if k > 0 then Reach(t.kids[0], k - 1, p)
    else if |p| == 0 then Some(t)
    else
      var i := Find(t.kids, p[0]);
      if i < |t.kids| then Reach(t.kids[i], t.kids[i].skip, p[1..]) else None
  }

  ghost function WeightOf(r: Option<Tree>): nat {
    match r case None => 0 case Some(t) => t.weight
  }

  /** `weight_self`, as an integer: that it is never negative is part of `Inv`. */
  ghost function SelfOf(r: Option<Tree>): int {
    match r case None => 0 case Some(t) => t.weight - WeightChildren(t.kids)
  }

  ghost predicate IsPrefix(p: seq<FrameId>, path: seq<Step>) {
    |p| <= |path| && forall i {:trigger p[i]} {:trigger path[i]} | 0 <= i < |p| :: p[i] == path[i].id
  }

  ghost predicate IsPath(p: seq<FrameId>, path: seq<Step>) {
    |p| == |path| && IsPrefix(p, path)
  }

  /** How one insertion changes what is found at `p`. */
  ghost predicate Changed(before: Option<Tree>, after: Option<Tree>, p: seq<FrameId>, path: seq<Step>, w: nat) {
    && (after.Some? <==> before.Some? || IsPrefix(p, path))
    && WeightOf(after) == WeightOf(before) + (if IsPrefix(p, path) then w else 0)
    && SelfOf(after) == SelfOf(before) + (if IsPath(p, path) then w else 0)
  }

  lemma {:induction false} ReachGrow(id: FrameId, skip: nat, k: nat, path: seq<Step>, w: nat, p: seq<FrameId>)
    requires StepsOk(path) && Inv(Grow(id, skip, k, path, w), k)
    ensures Changed(None, Reach(Grow(id, skip, k, path, w), k, p), p, path, w)
    decreases |path|, k
  {
    var t := Grow(id, skip, k, path, w);
    if k > 0 {
      ReachGrow(id, 0, k - 1, path, w, p);
    } else if |path| > 0 {
      assert |t.kids[1..]| == 0;
      if |p| > 0 && p[0] == path[0].id {
        assert SkipOf(path[0]) == path[0].chain - 1;
        ReachGrow(path[0].id, SkipOf(path[0]), path[0].chain - 1, path[1..], w, p[1..]);
        PrefixStep(p, path);
      } else if |p| > 0 {
        assert !IsPrefix(p, path);
      }
    }
  }

  lemma {:induction false} PrefixStep(p: seq<FrameId>, path: seq<Step>)
    requires |p| > 0 && |path| > 0
    ensures IsPrefix(p, path) <==> p[0] == path[0].id && IsPrefix(p[1..], path[1..])
  {
    if p[0] == path[0].id && IsPrefix(p[1..], path[1..]) {
      forall i | 0 <= i < |p| ensures p[i] == path[i].id {
        if i > 0 {
          assert p[1..][i - 1] == path[1..][i - 1].id;
        }
      }
    }
    if IsPrefix(p, path) {
      forall i | 0 <= i < |p[1..]| ensures p[1..][i] == path[1..][i].id {
        assert p[i + 1] == path[i + 1].id;
      }
    }
  }

  /** One insertion adds its weight at exactly the prefixes of its path, and to the
      self weight at exactly its path. */
  lemma {:induction false} ReachInsert(t: Tree, k: nat, path: seq<Step>, w: nat, p: seq<FrameId>)
    requires Inv(t, k) && StepsOk(path) && Inv(Insert(t, k, path, w), k)
    ensures Changed(Reach(t, k, p), Reach(Insert(t, k, path, w), k, p), p, path, w)
    decreases |path|, k, 1
  {
    if k > 0 {
      ReachInsert(t.kids[0], k - 1, path, w, p);
    } else if |p| == 0 {
      ReachInsertHere(t, path, w, p);
    } else if |path| > 0 {
      ReachInsertKids(t, path, w, p);
    } else {
      assert !IsPrefix(p, path);
    }
  }

  lemma {:induction false} ReachInsertHere(t: Tree, path: seq<Step>, w: nat, p: seq<FrameId>)
    requires Inv(t, 0) && StepsOk(path) && |p| == 0 && Inv(Insert(t, 0, path, w), 0)
    ensures Changed(Reach(t, 0, p), Reach(Insert(t, 0, path, w), 0, p), p, path, w)
  {
    if |path| > 0 {
      var kids := InsertKids(t, path, w);
      var i := Find(t.kids, path[0].id);
      if i < |t.kids| {
        InsertHead(t.kids[i], t.kids[i].skip, path[1..], w);
        WeightUpdate(t.kids, i, kids[i]);
      } else {
        WeightAppend(t.kids, kids[i]);
      }
    }
  }

  lemma {:induction false} ReachInsertKids(t: Tree, path: seq<Step>, w: nat, p: seq<FrameId>)
    requires Inv(t, 0) && StepsOk(path) && |path| > 0 && |p| > 0 && Inv(Insert(t, 0, path, w), 0)
    ensures Changed(Reach(t, 0, p), Reach(Insert(t, 0, path, w), 0, p), p, path, w)
    decreases |path|, 0, 0
  {
    var i := Find(t.kids, path[0].id);
    if p[0] != path[0].id {
      assert !IsPrefix(p, path);
      FindUntouched(t, path, w, p[0]);
    } else if i < |t.kids| {
      PrefixStep(p, path);
      FindInserted(t, path, w);
      ReachInsert(t.kids[i], t.kids[i].skip, path[1..], w, p[1..]);
    } else {
      ReachInsertNew(t, path, w, p);
    }
  }

  lemma {:induction false} ReachInsertNew(t: Tree, path: seq<Step>, w: nat, p: seq<FrameId>)
    requires Inv(t, 0) && StepsOk(path) && |path| > 0 && |p| > 0 && Inv(Insert(t, 0, path, w), 0)
    requires p[0] == path[0].id && Find(t.kids, path[0].id) == |t.kids|
    ensures Changed(Reach(t, 0, p), Reach(Insert(t, 0, path, w), 0, p), p, path, w)
  {
    PrefixStep(p, path);
    FindInserted(t, path, w);
    assert SkipOf(path[0]) == path[0].chain - 1;
    ReachGrow(path[0].id, SkipOf(path[0]), path[0].chain - 1, path[1..], w, p[1..]);
  }

  lemma {:induction false} FindInserted(t: Tree, path: seq<Step>, w: nat)
    requires Inv(t, 0) && StepsOk(path) && |path| > 0
    ensures Find(InsertKids(t, path, w), path[0].id) == Find(t.kids, path[0].id)
  {
    var i := Find(t.kids, path[0].id);
    if i < |t.kids| {
      InsertHead(t.kids[i], t.kids[i].skip, path[1..], w);
    }
    FindIsFirst(InsertKids(t, path, w), path[0].id, i);
  }

  lemma {:induction false} FindUntouched(t: Tree, path: seq<Step>, w: nat, id: FrameId)
    requires Inv(t, 0) && StepsOk(path) && |path| > 0 && id != path[0].id
    ensures
      var i, kids := Find(t.kids, id), InsertKids(t, path, w);
      if i < |t.kids| then Find(kids, id) == i && kids[i] == t.kids[i] else Find(kids, id) == |kids|
  {
    var i, kids := Find(t.kids, path[0].id), InsertKids(t, path, w);
    if i < |t.kids| {
      InsertHead(t.kids[i], t.kids[i].skip, path[1..], w);
    }
    FindIsFirst(kids, id, if Find(t.kids, id) < |t.kids| then Find(t.kids, id) else |kids|);
  }

  lemma {:induction false} FindIsFirst(kids: seq<Tree>, id: FrameId, i: nat)
    requires i <= |kids| && (i < |kids| ==> kids[i].id == id)
    requires forall j {:trigger kids[j]} | 0 <= j < i :: kids[j].id != id
    ensures Find(kids, id) == i
  {
  }

  // ------------------------------------------------------ any number of traces

  /** A trace as inserted: its frames from the outermost on, and its sample count. */
  datatype Sample = Sample(path: seq<Step>, weight: nat)

  ghost predicate SamplesOk(ss: seq<Sample>) {
    forall i {:trigger ss[i]} | 0 <= i < |ss| :: StepsOk(ss[i].path)
  }

  /** The trie after inserting all samples, in order, into `t`. */
  ghost function Build(t: Tree, ss: seq<Sample>): Tree
    requires Inv(t, 0) && SamplesOk(ss)
    ensures Inv(Build(t, ss), 0)
    decreases |ss|
  {
    if |ss| == 0 then t
    else
      var before := Build(t, ss[..|ss| - 1]);
      var s := ss[|ss| - 1];
      InsertInv(before, 0, s.path, s.weight);
      Insert(before, 0, s.path, s.weight)
  }

  /** Total weight of the samples whose path starts with `p`. */
  ghost function PrefixTotal(ss: seq<Sample>, p: seq<FrameId>): nat {
    if |ss| == 0 then 0
    else PrefixTotal(ss[..|ss| - 1], p) + if IsPrefix(p, ss[|ss| - 1].path) then ss[|ss| - 1].weight else 0
  }

  /** Total weight of the samples whose path is `p`. */
  ghost function PathTotal(ss: seq<Sample>, p: seq<FrameId>): nat {
    if |ss| == 0 then 0
    else PathTotal(ss[..|ss| - 1], p) + if IsPath(p, ss[|ss| - 1].path) then ss[|ss| - 1].weight else 0
  }

  ghost predicate SomePrefix(ss: seq<Sample>, p: seq<FrameId>) {
    exists i {:trigger ss[i]} :: 0 <= i < |ss| && IsPrefix(p, ss[i].path)
  }

  ghost predicate IsFresh(t: Tree) {
    t.skip == 0 && t.weight == 0 && |t.kids| == 0
  }

  lemma {:induction false} FreshInv(t: Tree)
    requires IsFresh(t)
    ensures Inv(t, 0)
  {
  }

  /** The tree after any sequence of insertions is exactly the weighted trie of the
      inserted paths: a path is there if and only if it is a prefix of some sample's
      path, its weight is the total over those samples, and its self weight the total
      over the samples with just that path. */
  lemma {:induction false} BuildIsTrie(t: Tree, ss: seq<Sample>, p: seq<FrameId>)
    requires IsFresh(t) && Inv(t, 0) && SamplesOk(ss)
    ensures
      var r := Reach(Build(t, ss), 0, p);
      && (r.Some? <==> |p| == 0 || SomePrefix(ss, p))
      && WeightOf(r) == PrefixTotal(ss, p)
      && SelfOf(r) == PathTotal(ss, p)
    decreases |ss|
  {
    if |ss| == 0 {
      assert Find(t.kids, t.id) == 0;
    } else {
      var most, s := ss[..|ss| - 1], ss[|ss| - 1];
      BuildIsTrie(t, most, p);
      InsertInv(Build(t, most), 0, s.path, s.weight);
      ReachInsert(Build(t, most), 0, s.path, s.weight, p);
      SomePrefixStep(ss, p);
    }
  }

  lemma {:induction false} SomePrefixStep(ss: seq<Sample>, p: seq<FrameId>)
    requires |ss| > 0
    ensures SomePrefix(ss, p) <==> SomePrefix(ss[..|ss| - 1], p) || IsPrefix(p, ss[|ss| - 1].path)
  {
    if SomePrefix(ss, p) {
      var i :| 0 <= i < |ss| && IsPrefix(p, ss[i].path);
      if i < |ss| - 1 {
        assert ss[..|ss| - 1][i] == ss[i];
      }
    }
    if SomePrefix(ss[..|ss| - 1], p) {
      var i :| 0 <= i < |ss| - 1 && IsPrefix(p, ss[..|ss| - 1][i].path);
      assert ss[i] == ss[..|ss| - 1][i];
    }
  }
}
