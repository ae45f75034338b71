/** Which trace decides how many nodes a frame stands for: the first one, among those
    inserted below the same node, that has the frames up to and including it. */
module FlameChains {
  import opened FlameTrie
  import opened FlameTrails

  /** Number of records of the last frame of `p` in the first sample that starts with
      `p`; zero if none does. */
  ghost function FirstChain(ss: seq<Sample>, p: seq<FrameId>): nat {
    if |ss| == 0 then 0
    else
      var before := FirstChain(ss[..|ss| - 1], p);
      if before > 0 then before else ChainIn(ss[|ss| - 1].path, p)
  }

  /** Number of records of the last frame of `p`, if the path starts with `p`. */
  ghost function ChainIn(path: seq<Step>, p: seq<FrameId>): nat {
    if |p| > 0 && IsPrefix(p, path) then path[|p| - 1].chain else 0
  }

  /** Length of the chain at the end of `p`; zero if `p` is not there. */
  ghost function ChainOf(t: Tree, k: nat, p: seq<FrameId>): nat
    requires Inv(t, k)
    decreases |p|, k
  {
    if k > 0 then ChainOf(t.kids[0], k - 1, p)
    else if |p| == 0 then 0
    else
      var i := Find(t.kids, p[0]);
      if i == |t.kids| then 0 else ChainBelow(t.kids[i], p)
  }

  ghost function ChainBelow(c: Tree, p: seq<FrameId>): nat
    requires Inv(c, c.skip) && |p| > 0
    decreases |p|, 0, 0
  {
    if |p| == 1 then c.skip + 1 else ChainOf(c, c.skip, p[1..])
  }

  lemma {:induction false} ChainStep(path: seq<Step>, p: seq<FrameId>)
    requires |path| > 0 && |p| > 1 && p[0] == path[0].id
    ensures ChainIn(path, p) == ChainIn(path[1..], p[1..])
  {
    PrefixStep(p, path);
  }

  lemma {:induction false} ChainGrow(id: FrameId, skip: nat, k: nat, path: seq<Step>, w: nat, p: seq<FrameId>)
    requires StepsOk(path) && Inv(Grow(id, skip, k, path, w), k)
    ensures ChainOf(Grow(id, skip, k, path, w), k, p) == ChainIn(path, p)
    decreases |path|, k
  {
    if k > 0 {
      ChainGrow(id, 0, k - 1, path, w, p);
    } else if |path| > 0 && |p| > 0 {
      assert SkipOf(path[0]) == path[0].chain - 1;
      if p[0] != path[0].id {
        assert !IsPrefix(p, path);
      } else if |p| > 1 {
        ChainGrow(path[0].id, SkipOf(path[0]), path[0].chain - 1, path[1..], w, p[1..]);
        ChainStep(path, p);
      }
    }
  }

  /** An insertion leaves the chains that are there as they are, and adds its own where
      there are none. */
  lemma {:induction false} ChainInsert(t: Tree, k: nat, path: seq<Step>, w: nat, p: seq<FrameId>)
    requires Inv(t, k) && StepsOk(path) && Inv(Insert(t, k, path, w), k)
    ensures ChainOf(Insert(t, k, path, w), k, p) ==
      if ChainOf(t, k, p) > 0 then ChainOf(t, k, p) else ChainIn(path, p)
    decreases |path|, k, 2
  {
    if k > 0 {
      ChainInsert(t.kids[0], k - 1, path, w, p);
    } else if |path| > 0 && |p| > 0 {
      ChainInsertKids(t, path, w, p);
    }
  }

  lemma {:induction false} ChainInsertKids(t: Tree, path: seq<Step>, w: nat, p: seq<FrameId>)
    requires Inv(t, 0) && StepsOk(path) && |path| > 0 && |p| > 0 && Inv(Insert(t, 0, path, w), 0)
    ensures ChainOf(Insert(t, 0, path, w), 0, p) ==
      if ChainOf(t, 0, p) > 0 then ChainOf(t, 0, p) else ChainIn(path, p)
    decreases |path|, 0, 1
  {
    if p[0] != path[0].id {
      assert !IsPrefix(p, path);
      FindUntouched(t, path, w, p[0]);
    } else if Find(t.kids, path[0].id) < |t.kids| {
      ChainInsertKnown(t, path, w, p);
    } else {
      ChainInsertNew(t, path, w, p);
    }
  }

  lemma {:induction false} ChainInsertKnown(t: Tree, path: seq<Step>, w: nat, p: seq<FrameId>)
    requires Inv(t, 0) && StepsOk(path) && |path| > 0 && |p| > 0 && Inv(Insert(t, 0, path, w), 0)
    requires p[0] == path[0].id && Find(t.kids, path[0].id) < |t.kids|
    ensures ChainOf(Insert(t, 0, path, w), 0, p) ==
      if ChainOf(t, 0, p) > 0 then ChainOf(t, 0, p) else ChainIn(path, p)
    decreases |path|, 0, 0
  {
    var c := t.kids[Find(t.kids, path[0].id)];
    FindInserted(t, path, w);
    InsertHead(c, c.skip, path[1..], w);
    if |p| > 1 {
      ChainInsert(c, c.skip, path[1..], w, p[1..]);
      ChainStep(path, p);
    }
  }

  lemma {:induction false} ChainInsertNew(t: Tree, path: seq<Step>, w: nat, p: seq<FrameId>)
    requires Inv(t, 0) && StepsOk(path) && |path| > 0 && |p| > 0 && Inv(Insert(t, 0, path, w), 0)
    requires p[0] == path[0].id && Find(t.kids, path[0].id) == |t.kids|
    ensures ChainOf(t, 0, p) == 0 && ChainOf(Insert(t, 0, path, w), 0, p) == ChainIn(path, p)
  {
    FindInserted(t, path, w);
    assert SkipOf(path[0]) == path[0].chain - 1;
    if |p| > 1 {
      ChainGrow(path[0].id, SkipOf(path[0]), path[0].chain - 1, path[1..], w, p[1..]);
      ChainStep(path, p);
    }
  }

  /** In every built tree the chain at a path is that of the first sample that has it. */
  lemma {:induction false} BuildChains(t: Tree, ss: seq<Sample>, p: seq<FrameId>)
    requires IsFresh(t) && Inv(t, 0) && SamplesOk(ss)
    ensures ChainOf(Build(t, ss), 0, p) == FirstChain(ss, p)
    decreases |ss|
  {
    if |ss| > 0 {
      var most, s := ss[..|ss| - 1], ss[|ss| - 1];
      BuildChains(t, most, p);
      InsertInv(Build(t, most), 0, s.path, s.weight);
      ChainInsert(Build(t, most), 0, s.path, s.weight, p);
    }
  }

  // -------------------------------------------------------------------- walks

  ghost function Copies(id: FrameId, n: nat): seq<FrameId> {
    if n == 0 then [] else [id] + Copies(id, n - 1)
  }

  /** Every frame of the path as often as `len` says for the frames up to it. */
  ghost function Nodes(len: seq<FrameId> -> nat, done: seq<FrameId>, path: seq<Step>): seq<FrameId>
    decreases |path|
  {
    if |path| == 0 then []
    else
      var p := done + [path[0].id];
      Copies(path[0].id, len(p)) + Nodes(len, p, path[1..])
  }

  /** `len` says how long the chains of the tree are. */
  ghost predicate Says(len: seq<FrameId> -> nat, done: seq<FrameId>, t: Tree, k: nat)
    requires Inv(t, k)
  {
    forall p {:trigger ChainOf(t, k, p)} | |p| > 0 :: ChainOf(t, k, p) == len(done + p)
  }

  lemma {:induction false} Shift(id: FrameId, a: seq<FrameId>, b: seq<FrameId>)
    ensures [id] + (a + b) == ([id] + a) + b
  {
  }

  lemma {:induction false} SaysInside(t: Tree, k: nat, len: seq<FrameId> -> nat, done: seq<FrameId>)
    requires k > 0 && Inv(t, k) && Says(len, done, t, k)
    ensures Says(len, done, t.kids[0], k - 1)
  {
    forall p | |p| > 0 ensures ChainOf(t.kids[0], k - 1, p) == len(done + p) {
      assert ChainOf(t, k, p) == len(done + p);
    }
  }

  lemma {:induction false} SaysBelow(t: Tree, c: Tree, len: seq<FrameId> -> nat, done: seq<FrameId>)
    requires Inv(t, 0) && Says(len, done, t, 0) && Find(t.kids, c.id) < |t.kids| && c == t.kids[Find(t.kids, c.id)]
    ensures Inv(c, c.skip) && Says(len, done + [c.id], c, c.skip)
    ensures len(done + [c.id]) == c.skip + 1
  {
    assert ChainOf(t, 0, [c.id]) == len(done + [c.id]);
    forall p | |p| > 0 ensures ChainOf(c, c.skip, p) == len((done + [c.id]) + p) {
      assert done + ([c.id] + p) == (done + [c.id]) + p;
      assert ChainOf(t, 0, [c.id] + p) == len(done + ([c.id] + p));
      ChainOneDown(t, c, p);
    }
  }

  lemma {:induction false} ChainOneDown(t: Tree, c: Tree, p: seq<FrameId>)
    requires Inv(t, 0) && Find(t.kids, c.id) < |t.kids| && c == t.kids[Find(t.kids, c.id)] && |p| > 0
    ensures Inv(c, c.skip) && ChainOf(t, 0, [c.id] + p) == ChainOf(c, c.skip, p)
  {
    var q := [c.id] + p;
    assert q[0] == c.id && q[1..] == p;
    assert ChainOf(t, 0, q) == ChainBelow(c, q);
  }

  /** The walk of a known path has every frame as often as its chain is long. */
  lemma {:induction false} WalkIsNodes(t: Tree, k: nat, path: seq<Step>, len: seq<FrameId> -> nat, done: seq<FrameId>)
    requires Inv(t, k) && StepsOk(path) && Knows(t, k, path) && Says(len, done, t, k)
    ensures Walk(t, k, path) == Copies(t.id, k + 1) + Nodes(len, done, path)
    decreases |path|, k
  {
    Shift(t.id, Copies(t.id, k), Nodes(len, done, path));
    if k > 0 {
      SaysInside(t, k, len, done);
      WalkIsNodes(t.kids[0], k - 1, path, len, done);
    } else if |path| > 0 {
      var c := t.kids[Find(t.kids, path[0].id)];
      SaysBelow(t, c, len, done);
      WalkIsNodes(c, c.skip, path[1..], len, done + [c.id]);
    }
  }
}
