/** What one inserted trace contributes to the sandwich view of a frame: the nodes its
    insertion walks over, cut at the frame's first occurrence. */
module FlameTrails {
  import opened FlameTrie
  import opened FlameSearch
  import opened FlameSandwich
  import opened FlameSort

  // ------------------------------------------------------------------- trails

  /** Ids of the nodes an insertion creates: the first of a frame, `k` more of its
      chain, and as many for each frame after it as its chain has. */
  ghost function Trail(id: FrameId, k: nat, path: seq<Step>): (ids: seq<FrameId>)
    requires StepsOk(path)
    ensures |ids| > 0 && ids[0] == id
    decreases |path|, k
  {
    [id] + Onward(id, k, path)
  }

  ghost function Onward(id: FrameId, k: nat, path: seq<Step>): seq<FrameId>
    requires StepsOk(path)
    decreases |path|, k, 0
  {
    if k > 0 then Trail(id, k - 1, path)
    else if |path| == 0 then []
    else Trail(path[0].id, path[0].chain - 1, path[1..])
  }

  /** Ids of the nodes an insertion walks over, from `t` on: known frames stand as the
      chains they have in the tree, all others as their own. */
  ghost function Walk(t: Tree, k: nat, path: seq<Step>): (ids: seq<FrameId>)
    requires Inv(t, k) && StepsOk(path)
    ensures |ids| > 0 && ids[0] == t.id
    decreases |path|, k
  {
    [t.id] + WalkOn(t, k, path)
  }

  ghost function WalkOn(t: Tree, k: nat, path: seq<Step>): seq<FrameId>
    requires Inv(t, k) && StepsOk(path)
    decreases |path|, k, 0
  {
    if k > 0 then Walk(t.kids[0], k - 1, path)
    else if |path| == 0 then []
    else
      var i := Find(t.kids, path[0].id);
      if i < |t.kids| then Walk(t.kids[i], t.kids[i].skip, path[1..])
      else Trail(path[0].id, path[0].chain - 1, path[1..])
  }

  /** Whether all frames of the path are there. */
  ghost predicate Knows(t: Tree, k: nat, path: seq<Step>)
    requires Inv(t, k)
    decreases |path|, k
  {
    if k > 0 then Knows(t.kids[0], k - 1, path)
    else if |path| == 0 then true
    else
      var i := Find(t.kids, path[0].id);
      i < |t.kids| && Knows(t.kids[i], t.kids[i].skip, path[1..])
  }

  lemma {:induction false} GrowKnows(id: FrameId, skip: nat, k: nat, path: seq<Step>, w: nat)
    requires StepsOk(path) && Inv(Grow(id, skip, k, path, w), k)
    ensures Knows(Grow(id, skip, k, path, w), k, path)
    ensures Walk(Grow(id, skip, k, path, w), k, path) == Trail(id, k, path)
    decreases |path|, k
  {
    if k > 0 {
      GrowKnows(id, 0, k - 1, path, w);
    } else if |path| > 0 {
      assert SkipOf(path[0]) == path[0].chain - 1;
      GrowKnows(path[0].id, SkipOf(path[0]), path[0].chain - 1, path[1..], w);
    }
  }

  /** An inserted path is known from then on, by the nodes its insertion walked over. */
  lemma {:induction false} InsertKnows(t: Tree, k: nat, path: seq<Step>, w: nat)
    requires Inv(t, k) && StepsOk(path) && Inv(Insert(t, k, path, w), k)
    ensures Knows(Insert(t, k, path, w), k, path)
    ensures Walk(Insert(t, k, path, w), k, path) == Walk(t, k, path)
    decreases |path|, k
  {
    if k > 0 {
      InsertKnows(t.kids[0], k - 1, path, w);
    } else if |path| > 0 {
      FindInserted(t, path, w);
      var i := Find(t.kids, path[0].id);
      if i < |t.kids| {
        InsertHead(t.kids[i], t.kids[i].skip, path[1..], w);
        InsertKnows(t.kids[i], t.kids[i].skip, path[1..], w);
      } else {
        assert SkipOf(path[0]) == path[0].chain - 1;
        GrowKnows(path[0].id, SkipOf(path[0]), path[0].chain - 1, path[1..], w);
      }
    }
  }

  /** Chains never change: later insertions leave the walks of known paths alone. */
  lemma {:induction false} KnownStays(t: Tree, k: nat, known: seq<Step>, path: seq<Step>, w: nat)
    requires Inv(t, k) && StepsOk(known) && StepsOk(path) && Inv(Insert(t, k, path, w), k)
    requires Knows(t, k, known)
    ensures Knows(Insert(t, k, path, w), k, known)
    ensures Walk(Insert(t, k, path, w), k, known) == Walk(t, k, known)
    decreases |path|, k, 1
  {
    if k > 0 {
      KnownStays(t.kids[0], k - 1, known, path, w);
    } else if |path| > 0 && |known| > 0 {
      KidsKnown(t, known, path, w);
    }
  }

  lemma {:induction false} KidsKnown(t: Tree, known: seq<Step>, path: seq<Step>, w: nat)
    requires Inv(t, 0) && StepsOk(known) && StepsOk(path) && Inv(Insert(t, 0, path, w), 0)
    requires Knows(t, 0, known) && |known| > 0 && |path| > 0
    ensures Knows(Insert(t, 0, path, w), 0, known)
    ensures Walk(Insert(t, 0, path, w), 0, known) == Walk(t, 0, known)
    decreases |path|, 0, 0
  {
    if known[0].id == path[0].id {
      var i := Find(t.kids, path[0].id);
      FindInserted(t, path, w);
      InsertHead(t.kids[i], t.kids[i].skip, path[1..], w);
      KnownStays(t.kids[i], t.kids[i].skip, known[1..], path[1..], w);
    } else {
      FindUntouched(t, path, w, known[0].id);
    }
  }

  // --------------------------------------------------------------------- hits

  /** Whether `q` is next above the first `x` on a trail, reading upwards. */
  ghost predicate CallerHit(ids: seq<FrameId>, x: FrameId, above: seq<FrameId>, q: seq<FrameId>)
    decreases |ids|
  {
    |ids| > 0 && if ids[0] == x then StartsAbove(above, q) else CallerHit(ids[1..], x, Above(above, ids[0]), q)
  }

  ghost predicate PrefixHit(ids: seq<FrameId>, q: seq<FrameId>) {
    |q| > 0 && q <= ids
  }

  /** Whether `q` is next below the first `x` on a trail. */
  ghost predicate CalleeHit(ids: seq<FrameId>, x: FrameId, q: seq<FrameId>)
    decreases |ids|
  {
    |ids| > 0 && if ids[0] == x then PrefixHit(ids[1..], q) else CalleeHit(ids[1..], x, q)
  }

  lemma {:induction false} HitStep(id: FrameId, rest: seq<FrameId>, x: FrameId, above: seq<FrameId>, q: seq<FrameId>)
    ensures
      var ids := [id] + rest;
      && (CallerHit(ids, x, above, q) <==>
            if id == x then StartsAbove(above, q) else CallerHit(rest, x, Above(above, id), q))
      && (CalleeHit(ids, x, q) <==> if id == x then PrefixHit(rest, q) else CalleeHit(rest, x, q))
      && (PrefixHit(ids, q) <==> |q| > 0 && q[0] == id && (|q| == 1 || PrefixHit(rest, q[1..])))
  {
    var ids := [id] + rest;
    assert ids[1..] == rest;
    if PrefixHit(ids, q) && |q| > 1 {
      assert q[1..] == ids[1..|q|] == rest[..|q| - 1];
    }
    if |q| > 1 && q[0] == id && PrefixHit(rest, q[1..]) {
      assert q == [q[0]] + q[1..];
    }
  }

  // -------------------------------------------------------------- tree sums

  /** Weight of the topmost nodes with id `x` that have `q` next above them. */
  ghost function CallerSum(t: Tree, x: FrameId, above: seq<FrameId>, q: seq<FrameId>): nat
    decreases t
  {
    if t.id == x then (if StartsAbove(above, q) then t.weight else 0)
    else CallerSums(t.kids, x, Above(above, t.id), q)
  }

  ghost function CallerSums(kids: seq<Tree>, x: FrameId, above: seq<FrameId>, q: seq<FrameId>): nat
    decreases kids
  {
    if |kids| == 0 then 0 else CallerSum(kids[0], x, above, q) + CallerSums(kids[1..], x, above, q)
  }

  /** Weight of what is at `q` below the topmost nodes with id `x`. */
  ghost function CalleeSum(t: Tree, x: FrameId, q: seq<FrameId>): nat
    decreases t
  {
    if t.id == x then PathWeight(t.kids, q) else CalleeSums(t.kids, x, q)
  }

  ghost function CalleeSums(kids: seq<Tree>, x: FrameId, q: seq<FrameId>): nat
    decreases kids
  {
    if |kids| == 0 then 0 else CalleeSum(kids[0], x, q) + CalleeSums(kids[1..], x, q)
  }

  ghost function CallerFn(x: FrameId, above: seq<FrameId>, q: seq<FrameId>): Tree -> int {
    (c: Tree) => CallerSum(c, x, above, q)
  }

  ghost function CalleeFn(x: FrameId, q: seq<FrameId>): Tree -> int {
    (c: Tree) => CalleeSum(c, x, q)
  }

  lemma {:induction false} HitSums(kids: seq<Tree>, x: FrameId, above: seq<FrameId>, q: seq<FrameId>)
    ensures CallerSums(kids, x, above, q) == TreeSum(CallerFn(x, above, q), kids)
    ensures CalleeSums(kids, x, q) == TreeSum(CalleeFn(x, q), kids)
    decreases |kids|
  {
    if |kids| > 0 {
      HitSums(kids[1..], x, above, q);
    }
  }

  lemma {:induction false} TreeSumUpdate(g: Tree -> int, kids: seq<Tree>, i: nat, c: Tree)
    requires i < |kids|
    ensures TreeSum(g, kids[i := c]) == TreeSum(g, kids) - g(kids[i]) + g(c)
    decreases |kids|
  {
    if i == 0 {
      assert kids[i := c][1..] == kids[1..];
    } else {
      assert kids[i := c][1..] == kids[1..][i - 1 := c];
      TreeSumUpdate(g, kids[1..], i - 1, c);
    }
  }

  lemma {:induction false} TreeSumAppend(g: Tree -> int, kids: seq<Tree>, c: Tree)
    ensures TreeSum(g, kids + [c]) == TreeSum(g, kids) + g(c)
    decreases |kids|
  {
    if |kids| == 0 {
      assert (kids + [c])[1..] == kids;
    } else {
      assert (kids + [c])[1..] == kids[1..] + [c];
      TreeSumAppend(g, kids[1..], c);
    }
  }

  // ------------------------------------------------------ sums over occurrences

  lemma {:induction false} CallerTotalConcat(a: seq<Occurrence>, b: seq<Occurrence>, q: seq<FrameId>)
    ensures CallerTotal(a + b, q) == CallerTotal(a, q) + CallerTotal(b, q)
    decreases |b|
  {
    if |b| == 0 {
      assert a + b == a;
    } else {
      assert (a + b)[..|a + b| - 1] == a + b[..|b| - 1];
      CallerTotalConcat(a, b[..|b| - 1], q);
    }
  }

  lemma {:induction false} CalleeTotalConcat(a: seq<Occurrence>, b: seq<Occurrence>, q: seq<FrameId>)
    ensures CalleeTotal(a + b, q) == CalleeTotal(a, q) + CalleeTotal(b, q)
    decreases |a|
  {
    if |a| == 0 {
      assert a + b == b;
    } else {
      assert (a + b)[1..] == a[1..] + b;
      CalleeTotalConcat(a[1..], b, q);
    }
  }

  /** What the two tries show at `q` are these sums over the searched tree. */
  lemma {:induction false} TotalsAreSums(t: Tree, x: FrameId, above: seq<FrameId>, q: seq<FrameId>)
    ensures CallerTotal(Occurrences(t, x, above), q) == CallerSum(t, x, above, q)
    ensures CalleeTotal(Occurrences(t, x, above), q) == CalleeSum(t, x, q)
    decreases t
  {
    if t.id == x {
      var os := [Occurrence(above, t)];
      assert |os[..0]| == 0 && |os[1..]| == 0;
    } else {
      TotalsInAreSums(t.kids, x, Above(above, t.id), q);
    }
  }

  lemma {:induction false} TotalsInAreSums(kids: seq<Tree>, x: FrameId, above: seq<FrameId>, q: seq<FrameId>)
    ensures CallerTotal(OccurrencesIn(kids, x, above), q) == CallerSums(kids, x, above, q)
    ensures CalleeTotal(OccurrencesIn(kids, x, above), q) == CalleeSums(kids, x, q)
    decreases kids
  {
    if |kids| > 0 {
      TotalsAreSums(kids[0], x, above, q);
      TotalsInAreSums(kids[1..], x, above, q);
      CallerTotalConcat(Occurrences(kids[0], x, above), OccurrencesIn(kids[1..], x, above), q);
      CalleeTotalConcat(Occurrences(kids[0], x, above), OccurrencesIn(kids[1..], x, above), q);
    }
  }

  // ---------------------------------------------------------------- insertion

  ghost function If(b: bool, w: nat): nat {
    if b then w else 0
  }

  lemma {:induction false} OneKid(c: Tree, q: seq<FrameId>, x: FrameId, above: seq<FrameId>)
    ensures PathWeight([c], q) == NodeWeight(c, q)
    ensures CallerSums([c], x, above, q) == CallerSum(c, x, above, q)
    ensures CalleeSums([c], x, q) == CalleeSum(c, x, q)
  {
    assert |[c][1..]| == 0;
  }

  /** New nodes weigh at exactly the prefixes of their trail. */
  lemma {:induction false} GrowPath(id: FrameId, skip: nat, k: nat, path: seq<Step>, w: nat, q: seq<FrameId>)
    requires StepsOk(path)
    ensures NodeWeight(Grow(id, skip, k, path, w), q) == If(PrefixHit(Trail(id, k, path), q), w)
    decreases |path|, k, 1
  {
    HitStep(id, Onward(id, k, path), id, [], q);
    if |q| > 1 {
      GrowBelow(id, skip, k, path, w, q[1..]);
    }
  }

  lemma {:induction false} GrowBelow(id: FrameId, skip: nat, k: nat, path: seq<Step>, w: nat, q: seq<FrameId>)
    requires StepsOk(path)
    ensures PathWeight(Grow(id, skip, k, path, w).kids, q) == If(PrefixHit(Onward(id, k, path), q), w)
    decreases |path|, k, 0
  {
    if k > 0 {
      GrowPath(id, 0, k - 1, path, w, q);
      OneKid(Grow(id, 0, k - 1, path, w), q, id, []);
    } else if |path| > 0 {
      GrowPath(path[0].id, SkipOf(path[0]), path[0].chain - 1, path[1..], w, q);
      OneKid(Grow(path[0].id, SkipOf(path[0]), path[0].chain - 1, path[1..], w), q, id, []);
    }
  }

  lemma {:induction false} GrowHits(id: FrameId, skip: nat, k: nat, path: seq<Step>, w: nat, x: FrameId, above: seq<FrameId>, q: seq<FrameId>)
    requires StepsOk(path)
    ensures CallerSum(Grow(id, skip, k, path, w), x, above, q) == If(CallerHit(Trail(id, k, path), x, above, q), w)
    ensures CalleeSum(Grow(id, skip, k, path, w), x, q) == If(CalleeHit(Trail(id, k, path), x, q), w)
    decreases |path|, k
  {
    HitStep(id, Onward(id, k, path), x, above, q);
    GrowBelow(id, skip, k, path, w, q);
    if id != x {
      if k > 0 {
        GrowHits(id, 0, k - 1, path, w, x, Above(above, id), q);
        OneKid(Grow(id, 0, k - 1, path, w), q, x, Above(above, id));
      } else if |path| > 0 {
        GrowHits(path[0].id, SkipOf(path[0]), path[0].chain - 1, path[1..], w, x, Above(above, id), q);
        OneKid(Grow(path[0].id, SkipOf(path[0]), path[0].chain - 1, path[1..], w), q, x, Above(above, id));
      }
    }
  }

  /** An insertion adds its weight at exactly the prefixes of its walk. */
  lemma {:induction false} InsertPath(t: Tree, k: nat, path: seq<Step>, w: nat, q: seq<FrameId>)
    requires Inv(t, k) && StepsOk(path)
    ensures PathWeight(Insert(t, k, path, w).kids, q) == PathWeight(t.kids, q) + If(PrefixHit(WalkOn(t, k, path), q), w)
    ensures NodeWeight(Insert(t, k, path, w), q) == NodeWeight(t, q) + If(PrefixHit(Walk(t, k, path), q), w)
    decreases |path|, k, 1 + |q|
  {
    HitStep(t.id, WalkOn(t, k, path), t.id, [], q);
    InsertHead(t, k, path, w);
    if |q| > 1 {
      InsertPath(t, k, path, w, q[1..]);
    }
    if k > 0 {
      InsertPath(t.kids[0], k - 1, path, w, q);
      OneKid(Insert(t.kids[0], k - 1, path, w), q, t.id, []);
      OneKid(t.kids[0], q, t.id, []);
      assert t.kids == [t.kids[0]];
    } else if |path| > 0 {
      InsertKidsPath(t, path, w, q);
    }
  }

  lemma {:induction false} InsertKidsPath(t: Tree, path: seq<Step>, w: nat, q: seq<FrameId>)
    requires Inv(t, 0) && StepsOk(path) && |path| > 0
    ensures PathWeight(InsertKids(t, path, w), q) == PathWeight(t.kids, q) + If(PrefixHit(WalkOn(t, 0, path), q), w)
    decreases |path|, 0, 0
  {
    var i := Find(t.kids, path[0].id);
    if i < |t.kids| {
      var c := t.kids[i];
      InsertPath(c, c.skip, path[1..], w, q);
      PathWeightUpdate(t.kids, i, Insert(c, c.skip, path[1..], w), q);
    } else {
      GrowPath(path[0].id, SkipOf(path[0]), path[0].chain - 1, path[1..], w, q);
      PathWeightAppend(t.kids, Grow(path[0].id, SkipOf(path[0]), path[0].chain - 1, path[1..], w), q);
    }
  }

  /** An insertion adds its weight to both sums iff its walk hits. */
  lemma {:induction false} InsertHits(t: Tree, k: nat, path: seq<Step>, w: nat, x: FrameId, above: seq<FrameId>, q: seq<FrameId>)
    requires Inv(t, k) && StepsOk(path)
    ensures CallerSum(Insert(t, k, path, w), x, above, q) == CallerSum(t, x, above, q) + If(CallerHit(Walk(t, k, path), x, above, q), w)
    ensures CalleeSum(Insert(t, k, path, w), x, q) == CalleeSum(t, x, q) + If(CalleeHit(Walk(t, k, path), x, q), w)
    decreases |path|, k, 1
  {
    HitStep(t.id, WalkOn(t, k, path), x, above, q);
    InsertHead(t, k, path, w);
    if t.id == x {
      InsertPath(t, k, path, w, q);
    } else if k > 0 {
      InsertHits(t.kids[0], k - 1, path, w, x, Above(above, t.id), q);
      OneKid(Insert(t.kids[0], k - 1, path, w), q, x, Above(above, t.id));
      OneKid(t.kids[0], q, x, Above(above, t.id));
      assert t.kids == [t.kids[0]];
    } else if |path| > 0 {
      InsertKidsHits(t, path, w, x, Above(above, t.id), q);
    }
  }

  lemma {:induction false} InsertKidsHits(t: Tree, path: seq<Step>, w: nat, x: FrameId, above: seq<FrameId>, q: seq<FrameId>)
    requires Inv(t, 0) && StepsOk(path) && |path| > 0
    ensures
      var ids := WalkOn(t, 0, path);
      && CallerSums(InsertKids(t, path, w), x, above, q) == CallerSums(t.kids, x, above, q) + If(CallerHit(ids, x, above, q), w)
      && CalleeSums(InsertKids(t, path, w), x, q) == CalleeSums(t.kids, x, q) + If(CalleeHit(ids, x, q), w)
    decreases |path|, 0, 0
  {
    var i, kids := Find(t.kids, path[0].id), InsertKids(t, path, w);
    HitSums(t.kids, x, above, q);
    HitSums(kids, x, above, q);
    if i < |t.kids| {
      InsertHits(t.kids[i], t.kids[i].skip, path[1..], w, x, above, q);
      TreeSumUpdate(CallerFn(x, above, q), t.kids, i, kids[i]);
      TreeSumUpdate(CalleeFn(x, q), t.kids, i, kids[i]);
    } else {
      GrowHits(path[0].id, SkipOf(path[0]), path[0].chain - 1, path[1..], w, x, above, q);
      TreeSumAppend(CallerFn(x, above, q), t.kids, kids[i]);
      TreeSumAppend(CalleeFn(x, q), t.kids, kids[i]);
    }
  }

  // ------------------------------------------------------------------ sorting

  lemma {:induction false} SortKeepsHits(t: Tree, r: Tree, x: FrameId, above: seq<FrameId>, q: seq<FrameId>)
    requires SortOf(t, r)
    ensures CallerSum(r, x, above, q) == CallerSum(t, x, above, q)
    ensures CalleeSum(r, x, q) == CalleeSum(t, x, q)
    decreases r
  {
    var perm: seq<nat>, mid: seq<Tree> :| Reordered(t.kids, perm, mid) && SortsOf(mid, r);
    var up, down := CallerFn(x, Above(above, t.id), q), CalleeFn(x, q);
    forall i | 0 <= i < |mid| ensures up(mid[i]) == up(r.kids[i]) && down(mid[i]) == down(r.kids[i]) {
      assert SortOf(mid[i], r.kids[i]);
      SortKeepsHits(mid[i], r.kids[i], x, Above(above, t.id), q);
    }
    HitSums(t.kids, x, Above(above, t.id), q);
    HitSums(r.kids, x, Above(above, t.id), q);
    TreeSumReordered(up, t.kids, perm, mid);
    TreeSumReordered(down, t.kids, perm, mid);
    TreeSumPointwise(up, mid, r.kids);
    TreeSumPointwise(down, mid, r.kids);
    SortKeepsBelow(t, r, q);
  }

  lemma {:induction false} SortKeepsBelow(t: Tree, r: Tree, q: seq<FrameId>)
    requires SortOf(t, r)
    ensures PathWeight(r.kids, q) == PathWeight(t.kids, q)
  {
    SortKeepsWeights(t, r, [t.id] + q, t.id);
    assert ([t.id] + q)[1..] == q;
    if |q| == 0 {
      EmptyPath(t.kids, q);
      EmptyPath(r.kids, q);
    }
  }

  lemma {:induction false} EmptyPath(kids: seq<Tree>, q: seq<FrameId>)
    requires |q| == 0
    ensures PathWeight(kids, q) == 0
    decreases |kids|
  {
    if |kids| > 0 {
      EmptyPath(kids[1..], q);
    }
  }
}
