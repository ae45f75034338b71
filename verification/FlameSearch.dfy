/** Searching the flame graph for a frame: the topmost occurrences, the total they
    weigh, and the two tries the sandwich view merges them into. */
module FlameSearch {
  import opened FlameTrie

  // ------------------------------------------------------------ total weight

  /** Summed weight of the topmost nodes with id `x`. */
  ghost function TopSum(t: Tree, x: FrameId): nat
    decreases t
  {
    if t.id == x then t.weight else TopSums(t.kids, x)
  }

  ghost function TopSums(kids: seq<Tree>, x: FrameId): nat
    decreases kids
  {
    if |kids| == 0 then 0 else TopSum(kids[0], x) + TopSums(kids[1..], x)
  }

  lemma {:induction false} TopSumsAppend(kids: seq<Tree>, c: Tree, x: FrameId)
    ensures TopSums(kids + [c], x) == TopSums(kids, x) + TopSum(c, x)
  {
    if |kids| == 0 {
      assert (kids + [c])[1..] == kids;
    } else {
      assert (kids + [c])[1..] == kids[1..] + [c];
      TopSumsAppend(kids[1..], c, x);
    }
  }

  lemma {:induction false} TopSumsUpdate(kids: seq<Tree>, i: nat, c: Tree, x: FrameId)
    requires i < |kids|
    ensures TopSums(kids[i := c], x) == TopSums(kids, x) - TopSum(kids[i], x) + TopSum(c, x)
  {
    if i == 0 {
      assert kids[i := c][1..] == kids[1..];
    } else {
      assert kids[i := c][1..] == kids[1..][i - 1 := c];
      TopSumsUpdate(kids[1..], i - 1, c, x);
    }
  }

  lemma {:induction false} TopSumsOne(c: Tree, x: FrameId)
    ensures TopSums([c], x) == TopSum(c, x)
  {
    assert |[c][1..]| == 0;
  }

  ghost predicate Has(path: seq<Step>, x: FrameId) {
    |path| > 0 && (path[0].id == x || Has(path[1..], x))
  }

  lemma {:induction false} TopSumGrow(id: FrameId, skip: nat, k: nat, path: seq<Step>, w: nat, x: FrameId)
    requires StepsOk(path)
    ensures TopSum(Grow(id, skip, k, path, w), x) == if id == x || Has(path, x) then w else 0
    decreases |path|, k
  {
    if k > 0 {
      TopSumGrow(id, 0, k - 1, path, w, x);
      TopSumsOne(Grow(id, 0, k - 1, path, w), x);
    } else if |path| > 0 {
      TopSumGrow(path[0].id, SkipOf(path[0]), path[0].chain - 1, path[1..], w, x);
      TopSumsOne(Grow(path[0].id, SkipOf(path[0]), path[0].chain - 1, path[1..], w), x);
    }
  }

  /** An insertion counts for `x` exactly once, however often `x` is on its path. */
  lemma {:induction false} TopSumInsert(t: Tree, k: nat, path: seq<Step>, w: nat, x: FrameId)
    requires Inv(t, k) && StepsOk(path)
    ensures TopSum(Insert(t, k, path, w), x) == TopSum(t, x) + if t.id == x || Has(path, x) then w else 0
    decreases |path|, k
  {
    if t.id != x {
      if k > 0 {
        TopSumInsert(t.kids[0], k - 1, path, w, x);
        TopSumsOne(Insert(t.kids[0], k - 1, path, w), x);
        TopSumsOne(t.kids[0], x);
        assert t.kids == [t.kids[0]];
      } else if |path| > 0 {
        var i := Find(t.kids, path[0].id);
        if i < |t.kids| {
          TopSumInsert(t.kids[i], t.kids[i].skip, path[1..], w, x);
          TopSumsUpdate(t.kids, i, Insert(t.kids[i], t.kids[i].skip, path[1..], w), x);
        } else {
          TopSumGrow(path[0].id, SkipOf(path[0]), path[0].chain - 1, path[1..], w, x);
          TopSumsAppend(t.kids, Grow(path[0].id, SkipOf(path[0]), path[0].chain - 1, path[1..], w), x);
        }
      }
    }
  }

  /** Total weight of the samples that contain `x` at least once. */
  ghost function HasTotal(ss: seq<Sample>, x: FrameId): nat {
    if |ss| == 0 then 0
    else HasTotal(ss[..|ss| - 1], x) + if Has(ss[|ss| - 1].path, x) then ss[|ss| - 1].weight else 0
  }

  /** Build and search end to end: the topmost occurrences of `x` weigh what the
      samples containing `x` weigh, recursion and inlining notwithstanding. */
  lemma {:induction false} TopSumBuild(t: Tree, ss: seq<Sample>, x: FrameId)
    requires IsFresh(t) && Inv(t, 0) && SamplesOk(ss) && t.id != x
    ensures TopSum(Build(t, ss), x) == HasTotal(ss, x)
    ensures Build(t, ss).id == t.id
    decreases |ss|
  {
    if |ss| > 0 {
      var most, s := ss[..|ss| - 1], ss[|ss| - 1];
      TopSumBuild(t, most, x);
      TopSumInsert(Build(t, most), 0, s.path, s.weight, x);
      InsertHead(Build(t, most), 0, s.path, s.weight);
    }
  }

  // ------------------------------------------------------------- occurrences

  /** A node the search stops at, and the ids above it that it lists as callers. */
  datatype Occurrence = Occurrence(above: seq<FrameId>, node: Tree)

  predicate IsRootId(id: FrameId) {
    id.addr == 0 && id.fileId == 0
  }

  ghost function Above(above: seq<FrameId>, id: FrameId): seq<FrameId> {
    if IsRootId(id) then above else above + [id]
  }

  /** The ids other than the root's, in order. */
  ghost function Kept(ids: seq<FrameId>): seq<FrameId> {
    if |ids| == 0 then []
    else (if ids[0] == FrameId(0, 0) then [] else [ids[0]]) + Kept(ids[1..])
  }

  lemma {:induction false} KeptAppend(ids: seq<FrameId>, id: FrameId)
    ensures Kept(ids + [id]) == Above(Kept(ids), id)
    decreases |ids|
  {
    if |ids| == 0 {
      assert ids + [id] == [id] && |[id][1..]| == 0;
    } else {
      assert (ids + [id])[1..] == ids[1..] + [id];
      KeptAppend(ids[1..], id);
    }
  }

  /** Where `collect_paths_through_frame` stops, in the order it does. */
  ghost function Occurrences(t: Tree, x: FrameId, above: seq<FrameId>): seq<Occurrence>
    decreases t
  {
    if t.id == x then [Occurrence(above, t)] else OccurrencesIn(t.kids, x, Above(above, t.id))
  }

  ghost function OccurrencesIn(kids: seq<Tree>, x: FrameId, above: seq<FrameId>): seq<Occurrence>
    decreases kids
  {
    if |kids| == 0 then []
    else Occurrences(kids[0], x, above) + OccurrencesIn(kids[1..], x, above)
  }

  /** The same nodes, with the ids of all nodes above them. */
  ghost function Found(t: Tree, x: FrameId, path: seq<FrameId>): seq<Occurrence>
    decreases t
  {
    if t.id == x then [Occurrence(path, t)] else FoundIn(t.kids, x, path + [t.id])
  }

  ghost function FoundIn(kids: seq<Tree>, x: FrameId, path: seq<FrameId>): seq<Occurrence>
    decreases kids
  {
    if |kids| == 0 then [] else Found(kids[0], x, path) + FoundIn(kids[1..], x, path)
  }

  /** The same nodes in the same order, listed with the ids above them that are kept. */
  ghost predicate Listed(os: seq<Occurrence>, fs: seq<Occurrence>) {
    |os| == |fs| && forall i {:trigger os[i]} {:trigger fs[i]} | 0 <= i < |os| ::
      os[i].node == fs[i].node && os[i].above == Kept(fs[i].above)
  }

  /** A caller path lists the ids of all nodes above the occurrence except (0, 0), and
      leaves out no others. */
  lemma {:induction false} CallerPathsKept(t: Tree, x: FrameId, path: seq<FrameId>)
    ensures Listed(Occurrences(t, x, Kept(path)), Found(t, x, path))
    decreases t
  {
    if t.id != x {
      KeptAppend(path, t.id);
      CallerPathsKeptIn(t.kids, x, path + [t.id]);
    }
  }

  lemma {:induction false} CallerPathsKeptIn(kids: seq<Tree>, x: FrameId, path: seq<FrameId>)
    ensures Listed(OccurrencesIn(kids, x, Kept(path)), FoundIn(kids, x, path))
    decreases kids
  {
    if |kids| > 0 {
      CallerPathsKept(kids[0], x, path);
      CallerPathsKeptIn(kids[1..], x, path);
    }
  }

  ghost function OccWeight(os: seq<Occurrence>): nat {
    if |os| == 0 then 0 else OccWeight(os[..|os| - 1]) + os[|os| - 1].node.weight
  }

  lemma {:induction false} OccWeightConcat(a: seq<Occurrence>, b: seq<Occurrence>)
    ensures OccWeight(a + b) == OccWeight(a) + OccWeight(b)
  {
    if |b| == 0 {
      assert a + b == a;
    } else {
      assert (a + b)[..|a + b| - 1] == a + b[..|b| - 1];
      OccWeightConcat(a, b[..|b| - 1]);
    }
  }

  lemma {:induction false} OccurrencesWeigh(t: Tree, x: FrameId, above: seq<FrameId>)
    ensures OccWeight(Occurrences(t, x, above)) == TopSum(t, x)
    decreases t
  {
    if t.id == x {
      assert |[Occurrence(above, t)][..0]| == 0;
    } else {
      OccurrencesInWeigh(t.kids, x, Above(above, t.id));
    }
  }

  lemma {:induction false} OccurrencesInWeigh(kids: seq<Tree>, x: FrameId, above: seq<FrameId>)
    ensures OccWeight(OccurrencesIn(kids, x, above)) == TopSums(kids, x)
    decreases kids
  {
    if |kids| > 0 {
      OccurrencesWeigh(kids[0], x, above);
      OccurrencesInWeigh(kids[1..], x, above);
      OccWeightConcat(Occurrences(kids[0], x, above), OccurrencesIn(kids[1..], x, above));
    }
  }
}
