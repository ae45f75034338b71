/** `sort_children`: what it may do to a tree, and what that leaves unchanged. */
module FlameSort {
  import opened Bytes
  import opened Sorting
  import opened FlameTrie
  import opened FlameSearch
  import opened FlameSandwich

  // -------------------------------------------------------------------- keys

  /** `FrameId::into_raw`: the file id little-endian, then the address big-endian. */
  function RawId(id: FrameId): (b: seq<byte>)
    ensures |b| == 24
  {
    LittleEndian(id.fileId, 16) + BigEndian(id.addr, 8)
  }

  /** The bytes two ids are ordered by differ whenever the ids do. */
  lemma {:induction false} RawIdInjective(a: FrameId, b: FrameId)
    ensures RawId(a) == RawId(b) <==> a == b
  {
    WordSizes();
    LittleEndianInjective(a.fileId, b.fileId, 16);
    BigEndianOrder(a.addr, b.addr, 8);
    if RawId(a) == RawId(b) {
      assert LittleEndian(a.fileId, 16) == RawId(a)[..16] && LittleEndian(b.fileId, 16) == RawId(b)[..16];
      assert BigEndian(a.addr, 8) == RawId(a)[16..] && BigEndian(b.addr, 8) == RawId(b)[16..];
    }
  }

  /** These bytes are the digits in base 256 of the file id, from the lowest on, and then
      those of the address, from the highest on. */
  lemma {:induction false} RawIdDigits(id: FrameId, i: nat)
    ensures i < 16 ==> RawId(id)[i] == id.fileId / Pow256(i) % 256
    ensures i < 8 ==> RawId(id)[16 + 7 - i] == id.addr / Pow256(i) % 256
  {
    if i < 16 {
      LittleEndianDigits(id.fileId, 16, i);
      assert RawId(id)[i] == LittleEndian(id.fileId, 16)[i];
    }
    if i < 8 {
      BigEndianDigits(id.addr, 8, i);
      assert RawId(id)[16 + 7 - i] == BigEndian(id.addr, 8)[7 - i];
    }
  }

  /** The sort key `(-(weight as i64), id)`. */
  datatype Key = Key(negWeight: int, id: FrameId)

  predicate KeyLe(a: Key, b: Key) {
    a.negWeight < b.negWeight || (a.negWeight == b.negWeight && LexLe(RawId(a.id), RawId(b.id)))
  }

  function KeyOf(weight: nat, id: FrameId): Key {
    Key(-(weight as int), id)
  }

  /** Siblings compare equal only if they have the same weight and the same id. */
  lemma {:induction false} KeyAntisymmetric(v: nat, a: FrameId, w: nat, b: FrameId)
    requires KeyLe(KeyOf(v, a), KeyOf(w, b)) && KeyLe(KeyOf(w, b), KeyOf(v, a))
    ensures v == w && a == b
  {
    LexAntisymmetric(RawId(a), RawId(b));
    RawIdInjective(a, b);
  }

  lemma {:induction false} KeyOrder()
    ensures IsOrder((a: Key, b: Key) => KeyLe(a, b))
  {
    forall a: Key, b: Key ensures KeyLe(a, b) || KeyLe(b, a) {
      LexTotal(RawId(a.id), RawId(b.id));
    }
    forall a: Key, b: Key, c: Key ensures KeyLe(a, b) && KeyLe(b, c) ==> KeyLe(a, c) {
      if KeyLe(a, b) && KeyLe(b, c) && a.negWeight == b.negWeight == c.negWeight {
        LexTransitive(RawId(a.id), RawId(b.id), RawId(c.id));
      }
    }
  }

  // ---------------------------------------------------------------- relation

  ghost predicate IsPerm(perm: seq<nat>, n: nat) {
    multiset(perm) == multiset(Range(n))
  }

  function Range(n: nat): (r: seq<nat>)
    ensures |r| == n
    ensures forall i {:trigger r[i]} | 0 <= i < n :: r[i] == i
  {
    seq(n, i => i)
  }

  /** The order an unstable sort by key puts the positions of `keys` in. */
  method SortOrder(keys: seq<Key>) returns (perm: seq<nat>)
    ensures IsPerm(perm, |keys|) && |perm| == |keys|
    ensures forall i {:trigger perm[i]} | 0 <= i < |perm| :: perm[i] < |keys|
    ensures forall i, j {:trigger perm[i], perm[j]} | 0 <= i < j < |perm| :: KeyLe(keys[perm[i]], keys[perm[j]])
  {
    KeyOrder();
    perm := SortByKey((a: Key, b: Key) => KeyLe(a, b), (i: nat) => KeyAt(keys, i), Range(|keys|));
    InRange(perm, |keys|);
  }

  function KeyAt(keys: seq<Key>, i: nat): Key {
    if i < |keys| then keys[i] else Key(0, FrameId(0, 0))
  }

  lemma {:induction false} InRange(perm: seq<nat>, n: nat)
    requires IsPerm(perm, n)
    ensures forall i {:trigger perm[i]} | 0 <= i < |perm| :: perm[i] < n
  {
    forall i | 0 <= i < |perm| ensures perm[i] < n {
      assert perm[i] in multiset(perm);
      assert perm[i] in Range(n);
    }
  }

  /** One level: `mid` is `kids` reordered by `perm`, and ordered by key. */
  ghost predicate Reordered(kids: seq<Tree>, perm: seq<nat>, mid: seq<Tree>) {
    && IsPerm(perm, |kids|) && |mid| == |perm| == |kids|
    && (forall i {:trigger perm[i]} | 0 <= i < |perm| :: perm[i] < |kids|)
    && (forall i {:trigger mid[i]} | 0 <= i < |mid| :: mid[i] == kids[perm[i]])
    && Ordered(mid)
  }

  ghost predicate Ordered(kids: seq<Tree>) {
    forall i, j {:trigger kids[i], kids[j]} | 0 <= i < j < |kids| ::
      kids[i].weight > kids[j].weight || (kids[i].weight == kids[j].weight && IdLe(kids[i].id, kids[j].id))
  }

  /** Ids of equal weight are ordered by their bytes. */
  ghost predicate IdLe(a: FrameId, b: FrameId) {
    LexLe(RawId(a), RawId(b))
  }

  /** `r` is what sorting `t` may result in: its children reordered by key, in any
      way where keys are equal, and each of them sorted in turn. */
  ghost predicate SortOf(t: Tree, r: Tree)
    decreases r, 1
  {
    && r.id == t.id && r.skip == t.skip && r.weight == t.weight
    && exists perm: seq<nat>, mid: seq<Tree> {:trigger Reordered(t.kids, perm, mid)} :: Reordered(t.kids, perm, mid) && SortsOf(mid, r)
  }

  ghost predicate SortsOf(mid: seq<Tree>, r: Tree)
    decreases r, 0
  {
    |mid| == |r.kids| && forall i {:trigger r.kids[i]} | 0 <= i < |mid| :: SortOf(mid[i], r.kids[i])
  }

  /** Siblings are ordered by descending weight, then id bytes, at every depth. */
  ghost predicate OrderedTree(t: Tree) {
    Ordered(t.kids) && forall i {:trigger t.kids[i]} | 0 <= i < |t.kids| :: OrderedTree(t.kids[i])
  }

  lemma {:induction false} SortOrders(t: Tree, r: Tree)
    requires SortOf(t, r)
    ensures OrderedTree(r)
    decreases r
  {
    var perm: seq<nat>, mid: seq<Tree> :| Reordered(t.kids, perm, mid) && SortsOf(mid, r);
    forall i | 0 <= i < |r.kids| ensures OrderedTree(r.kids[i]) && r.kids[i].weight == mid[i].weight && r.kids[i].id == mid[i].id {
      assert SortOf(mid[i], r.kids[i]);
      SortOrders(mid[i], r.kids[i]);
    }
  }

  // ------------------------------------------------------------ sums over kids

  /** Sum of `f` over the positions listed. */
  ghost function Sum(f: nat -> int, s: seq<nat>): int {
    if |s| == 0 then 0 else f(s[0]) + Sum(f, s[1..])
  }

  lemma {:induction false} SumConcat(f: nat -> int, a: seq<nat>, b: seq<nat>)
    ensures Sum(f, a + b) == Sum(f, a) + Sum(f, b)
    decreases |a|
  {
    if |a| == 0 {
      assert a + b == b;
    } else {
      assert (a + b)[1..] == a[1..] + b;
      SumConcat(f, a[1..], b);
    }
  }

  lemma {:induction false} SumPermutes(f: nat -> int, a: seq<nat>, b: seq<nat>)
    requires multiset(a) == multiset(b)
    ensures Sum(f, a) == Sum(f, b)
    decreases |a|
  {
    if |a| == 0 {
      assert |b| == |multiset(b)| == 0;
    } else {
      assert a[0] in multiset(b);
      var k :| 0 <= k < |b| && b[k] == a[0];
      RestsPermute(a, b, k);
      SumPermutes(f, a[1..], b[..k] + b[k + 1..]);
      SumPick(f, b, k);
    }
  }

  lemma {:induction false} SumPick(f: nat -> int, b: seq<nat>, k: nat)
    requires k < |b|
    ensures Sum(f, b) == f(b[k]) + Sum(f, b[..k] + b[k + 1..])
  {
    SumConcat(f, b[..k], b[k + 1..]);
    SumConcat(f, b[..k], b[k..]);
    assert b[..k] + b[k..] == b;
    assert b[k..][1..] == b[k + 1..];
  }

  ghost function TreeSum(g: Tree -> int, kids: seq<Tree>): int {
    if |kids| == 0 then 0 else g(kids[0]) + TreeSum(g, kids[1..])
  }

  lemma {:induction false} TreeSumIndexed(g: Tree -> int, f: nat -> int, kids: seq<Tree>, idx: seq<nat>, mid: seq<Tree>)
    requires |mid| == |idx|
    requires forall i {:trigger f(i)} | 0 <= i < |kids| :: f(i) == g(kids[i])
    requires forall i {:trigger mid[i]} | 0 <= i < |mid| :: idx[i] < |kids| && mid[i] == kids[idx[i]]
    ensures TreeSum(g, mid) == Sum(f, idx)
    decreases |mid|
  {
    if |mid| > 0 {
      forall i | 0 <= i < |mid[1..]| ensures idx[1..][i] < |kids| && mid[1..][i] == kids[idx[1..][i]] {
        assert mid[1..][i] == mid[i + 1] && idx[1..][i] == idx[i + 1];
      }
      TreeSumIndexed(g, f, kids, idx[1..], mid[1..]);
      var m := mid[0];
      assert f(idx[0]) == g(m);
    }
  }

  /** Reordering the children changes no sum over them. */
  lemma {:induction false} TreeSumReordered(g: Tree -> int, kids: seq<Tree>, perm: seq<nat>, mid: seq<Tree>)
    requires Reordered(kids, perm, mid)
    ensures TreeSum(g, mid) == TreeSum(g, kids)
  {
    var f: nat -> int := (i: nat) => if i < |kids| then g(kids[i]) else 0;
    TreeSumIndexed(g, f, kids, perm, mid);
    TreeSumIndexed(g, f, kids, Range(|kids|), kids);
    SumPermutes(f, perm, Range(|kids|));
  }

  /** Children whose values of `g` agree one by one have the same sum. */
  lemma {:induction false} TreeSumPointwise(g: Tree -> int, a: seq<Tree>, b: seq<Tree>)
    requires |a| == |b| && forall i {:trigger b[i]} | 0 <= i < |a| :: g(a[i]) == g(b[i])
    ensures TreeSum(g, a) == TreeSum(g, b)
    decreases |a|
  {
    if |a| > 0 {
      forall i | 0 <= i < |a[1..]| ensures g(a[1..][i]) == g(b[1..][i]) {
        assert b[1..][i] == b[i + 1] && a[1..][i] == a[i + 1];
      }
      TreeSumPointwise(g, a[1..], b[1..]);
      assert g(a[0]) == g(b[0]);
    }
  }

  ghost function WeightFn(): Tree -> int {
    (c: Tree) => c.weight
  }

  ghost function PathFn(q: seq<FrameId>): Tree -> int {
    (c: Tree) => NodeWeight(c, q)
  }

  ghost function TopFn(x: FrameId): Tree -> int {
    (c: Tree) => TopSum(c, x)
  }

  lemma {:induction false} SumsAreTreeSums(kids: seq<Tree>, q: seq<FrameId>, x: FrameId)
    ensures WeightChildren(kids) == TreeSum(WeightFn(), kids)
    ensures PathWeight(kids, q) == TreeSum(PathFn(q), kids)
    ensures TopSums(kids, x) == TreeSum(TopFn(x), kids)
    decreases |kids|
  {
    if |kids| > 0 {
      SumsAreTreeSums(kids[1..], q, x);
    }
  }

  // ------------------------------------------------------------- preservation

  /** Sorting keeps the weight at every path, and what any frame totals to. */
  lemma {:induction false} SortKeepsWeights(t: Tree, r: Tree, q: seq<FrameId>, x: FrameId)
    requires SortOf(t, r)
    ensures NodeWeight(r, q) == NodeWeight(t, q)
    ensures TopSum(r, x) == TopSum(t, x)
    ensures WeightChildren(r.kids) == WeightChildren(t.kids)
    decreases r
  {
    var perm: seq<nat>, mid: seq<Tree> :| Reordered(t.kids, perm, mid) && SortsOf(mid, r);
    var rest := if |q| > 0 then q[1..] else q;
    forall i | 0 <= i < |mid|
      ensures NodeWeight(mid[i], rest) == NodeWeight(r.kids[i], rest)
      ensures TopSum(mid[i], x) == TopSum(r.kids[i], x) && mid[i].weight == r.kids[i].weight
    {
      assert SortOf(mid[i], r.kids[i]);
      SortKeepsWeights(mid[i], r.kids[i], rest, x);
    }
    KidsKeepSums(t.kids, perm, mid, r.kids, rest, x);
  }

  lemma {:induction false} KidsKeepSums(kids: seq<Tree>, perm: seq<nat>, mid: seq<Tree>, sorted: seq<Tree>, q: seq<FrameId>, x: FrameId)
    requires Reordered(kids, perm, mid) && |sorted| == |mid|
    requires forall i {:trigger sorted[i]} | 0 <= i < |mid| ::
      && NodeWeight(mid[i], q) == NodeWeight(sorted[i], q)
      && TopSum(mid[i], x) == TopSum(sorted[i], x)
      && mid[i].weight == sorted[i].weight
    ensures WeightChildren(sorted) == WeightChildren(kids)
    ensures PathWeight(sorted, q) == PathWeight(kids, q)
    ensures TopSums(sorted, x) == TopSums(kids, x)
  {
    SumsAreTreeSums(kids, q, x);
    SumsAreTreeSums(sorted, q, x);
    TreeSumReordered(WeightFn(), kids, perm, mid);
    TreeSumReordered(PathFn(q), kids, perm, mid);
    TreeSumReordered(TopFn(x), kids, perm, mid);
    TreeSumPointwise(WeightFn(), mid, sorted);
    TreeSumPointwise(PathFn(q), mid, sorted);
    TreeSumPointwise(TopFn(x), mid, sorted);
  }

  lemma {:induction false} PermInjective(perm: seq<nat>, n: nat, i: nat, j: nat)
    requires IsPerm(perm, n) && i < j < |perm|
    ensures perm[i] != perm[j]
  {
    if perm[i] == perm[j] {
      Twice(perm, i, j);
      RangeOnce(n, perm[i]);
    }
  }

  lemma {:induction false} Twice(s: seq<nat>, i: nat, j: nat)
    requires i < j < |s| && s[i] == s[j]
    ensures multiset(s)[s[i]] >= 2
  {
    var a, b := s[..j], s[j..];
    assert s == a + b;
    assert a[i] == s[i] && b[0] == s[j];
    assert s[i] in multiset(a) && s[i] in multiset(b);
    assert multiset(s)[s[i]] == multiset(a)[s[i]] + multiset(b)[s[i]];
  }

  lemma {:induction false} RangeOnce(n: nat, v: nat)
    ensures multiset(Range(n))[v] == if v < n then 1 else 0
    decreases n
  {
    if n > 0 {
      RangeOnce(n - 1, v);
      assert Range(n) == Range(n - 1) + [n - 1];
    }
  }

  lemma {:induction false} PermSurjective(perm: seq<nat>, n: nat, i: nat) returns (j: nat)
    requires IsPerm(perm, n) && i < n
    ensures j < |perm| && perm[j] == i
  {
    assert Range(n)[i] == i;
    assert i in multiset(perm);
    j :| 0 <= j < |perm| && perm[j] == i;
  }

  lemma {:induction false} SortKeepsInv(t: Tree, r: Tree, k: nat)
    requires SortOf(t, r) && Inv(t, k)
    ensures Inv(r, k)
    decreases r
  {
    var perm: seq<nat>, mid: seq<Tree> :| Reordered(t.kids, perm, mid) && SortsOf(mid, r);
    forall i | 0 <= i < |mid| ensures perm[i] < |t.kids| && mid[i] == t.kids[perm[i]] && SortOf(mid[i], r.kids[i]) {
      var m := perm[i];
    }
    if k > 0 {
      assert perm[0] < 1;
      SortKeepsInv(mid[0], r.kids[0], k - 1);
    } else {
      SortKeepsWeights(t, r, [], t.id);
      forall i | 0 <= i < |r.kids| ensures Inv(r.kids[i], r.kids[i].skip) {
        SortKeepsInv(mid[i], r.kids[i], mid[i].skip);
      }
      forall i, j | 0 <= i < j < |r.kids| ensures r.kids[i].id != r.kids[j].id {
        PermInjective(perm, |t.kids|, i, j);
        assert mid[i] == t.kids[perm[i]] && mid[j] == t.kids[perm[j]];
        assert SortOf(mid[i], r.kids[i]) && SortOf(mid[j], r.kids[j]);
      }
    }
  }

  /** Sorting keeps every path of the trie, with its weight and self weight. */
  lemma {:induction false} SortKeepsPaths(t: Tree, r: Tree, k: nat, p: seq<FrameId>)
    requires SortOf(t, r) && Inv(t, k) && Inv(r, k)
    ensures
      var a, b := Reach(t, k, p), Reach(r, k, p);
      && (a.Some? <==> b.Some?)
      && (a.Some? ==> SortOf(a.value, b.value))
      && WeightOf(a) == WeightOf(b) && SelfOf(a) == SelfOf(b)
    decreases r
  {
    var perm: seq<nat>, mid: seq<Tree> :| Reordered(t.kids, perm, mid) && SortsOf(mid, r);
    if k > 0 {
      assert perm[0] < 1 && SortOf(mid[0], r.kids[0]);
      SortKeepsPaths(mid[0], r.kids[0], k - 1, p);
    } else if |p| == 0 {
      SortKeepsWeights(t, r, p, t.id);
    } else {
      var i := Find(t.kids, p[0]);
      if i < |t.kids| {
        var j := PermSurjective(perm, |t.kids|, i);
        assert mid[j] == t.kids[i] && SortOf(mid[j], r.kids[j]);
        FindUnique(r.kids, p[0], j);
        SortKeepsPaths(mid[j], r.kids[j], mid[j].skip, p[1..]);
      } else {
        forall j | 0 <= j < |r.kids| ensures r.kids[j].id != p[0] {
          assert perm[j] < |t.kids| && mid[j] == t.kids[perm[j]] && SortOf(mid[j], r.kids[j]);
        }
        FindIsFirst(r.kids, p[0], |r.kids|);
      }
    }
  }

  lemma {:induction false} FindUnique(kids: seq<Tree>, id: FrameId, j: nat)
    requires Distinct(kids) && j < |kids| && kids[j].id == id
    ensures Find(kids, id) == j
  {
    FindIsFirst(kids, id, j);
  }

  // -------------------------------------------------------------- uniqueness

  /** The element at position `i` of one ordering is not before position `i` in
      another that agrees with it up to there. */
  lemma {:induction false} NotEarlier(kids: seq<Tree>, pa: seq<nat>, a: seq<Tree>, pb: seq<nat>, b: seq<Tree>, i: nat) returns (j: nat)
    requires Distinct(kids) && Reordered(kids, pa, a) && Reordered(kids, pb, b) && i < |kids|
    requires forall j {:trigger a[j]} {:trigger b[j]} | 0 <= j < i :: a[j] == b[j]
    ensures i <= j < |b| && b[j] == a[i]
  {
    assert a[i] == kids[pa[i]] && pa[i] < |kids|;
    j := PermSurjective(pb, |kids|, pa[i]);
    assert b[j] == kids[pb[j]];
    if j < i {
      PermInjective(pa, |kids|, j, i);
    }
  }

  lemma {:induction false} AgreeUpTo(kids: seq<Tree>, pa: seq<nat>, a: seq<Tree>, pb: seq<nat>, b: seq<Tree>, n: nat)
    requires Distinct(kids) && Reordered(kids, pa, a) && Reordered(kids, pb, b) && n <= |kids|
    ensures forall j {:trigger a[j]} {:trigger b[j]} | 0 <= j < n :: a[j] == b[j]
    decreases n
  {
    if n > 0 {
      AgreeUpTo(kids, pa, a, pb, b, n - 1);
      NextAgrees(kids, pa, a, pb, b, n - 1);
    }
  }

  lemma {:induction false} NextAgrees(kids: seq<Tree>, pa: seq<nat>, a: seq<Tree>, pb: seq<nat>, b: seq<Tree>, i: nat)
    requires Distinct(kids) && Reordered(kids, pa, a) && Reordered(kids, pb, b) && i < |kids|
    requires forall j {:trigger a[j]} {:trigger b[j]} | 0 <= j < i :: a[j] == b[j]
    ensures a[i] == b[i]
  {
    var j := NotEarlier(kids, pa, a, pb, b, i);
    var k := NotEarlier(kids, pb, b, pa, a, i);
    SameKeySame(kids, pa, a, pb, b, i, j, k);
  }

  lemma {:induction false} OrderUnique(kids: seq<Tree>, pa: seq<nat>, a: seq<Tree>, pb: seq<nat>, b: seq<Tree>)
    requires Distinct(kids) && Reordered(kids, pa, a) && Reordered(kids, pb, b)
    ensures a == b
  {
    AgreeUpTo(kids, pa, a, pb, b, |kids|);
  }

  lemma {:induction false} InKeyOrder(kids: seq<Tree>, i: nat, j: nat)
    requires Ordered(kids) && i <= j < |kids|
    ensures KeyLe(KeyOf(kids[i].weight, kids[i].id), KeyOf(kids[j].weight, kids[j].id))
  {
    RawRefl(RawId(kids[i].id));
  }

  lemma {:induction false} SameKeySame(kids: seq<Tree>, pa: seq<nat>, a: seq<Tree>, pb: seq<nat>, b: seq<Tree>, i: nat, j: nat, k: nat)
    requires Distinct(kids) && Reordered(kids, pa, a) && Reordered(kids, pb, b)
    requires i < |kids| && i <= j < |b| && b[j] == a[i] && i <= k < |a| && a[k] == b[i]
    ensures a[i] == b[i]
  {
    InKeyOrder(b, i, j);
    InKeyOrder(a, i, k);
    KeyAntisymmetric(a[i].weight, a[i].id, b[i].weight, b[i].id);
    assert a[i] == kids[pa[i]] && pa[i] < |kids|;
    assert b[i] == kids[pb[i]] && pb[i] < |kids|;
    if pa[i] < pb[i] {} else if pb[i] < pa[i] {}
  }

  lemma {:induction false} RawRefl(b: seq<byte>)
    ensures LexLe(b, b)
  {
    LexTotal(b, b);
  }

  /** Where sibling ids are distinct, the result of sorting is unique, although the
      sort is unstable and the order the children arrive in is arbitrary. */
  lemma {:induction false} SortUnique(t: Tree, a: Tree, b: Tree)
    requires AllDistinct(t.kids) && SortOf(t, a) && SortOf(t, b)
    ensures a == b
    decreases a
  {
    var pa: seq<nat>, ma: seq<Tree> :| Reordered(t.kids, pa, ma) && SortsOf(ma, a);
    var pb: seq<nat>, mb: seq<Tree> :| Reordered(t.kids, pb, mb) && SortsOf(mb, b);
    OrderUnique(t.kids, pa, ma, pb, mb);
    forall i | 0 <= i < |ma| ensures a.kids[i] == b.kids[i] {
      assert pa[i] < |t.kids| && ma[i] == t.kids[pa[i]];
      assert SortOf(ma[i], a.kids[i]) && SortOf(mb[i], b.kids[i]);
      SortUnique(ma[i], a.kids[i], b.kids[i]);
    }
  }

  // ------------------------------------------------------------ arrival order

  function Select(perm: seq<nat>, idx: seq<nat>): (r: seq<nat>)
    requires forall i {:trigger idx[i]} | 0 <= i < |idx| :: idx[i] < |perm|
    ensures |r| == |idx| && forall i {:trigger r[i]} | 0 <= i < |r| :: r[i] == perm[idx[i]]
  {
    seq(|idx|, i requires 0 <= i < |idx| && idx[i] < |perm| => perm[idx[i]])
  }

  ghost function IsValue(perm: seq<nat>, v: nat): nat -> int {
    (i: nat) => if i < |perm| && perm[i] == v then 1 else 0
  }

  lemma {:induction false} CountIsSum(perm: seq<nat>, idx: seq<nat>, v: nat)
    requires forall i {:trigger idx[i]} | 0 <= i < |idx| :: idx[i] < |perm|
    ensures multiset(Select(perm, idx))[v] == Sum(IsValue(perm, v), idx)
    decreases |idx|
  {
    if |idx| > 0 {
      forall i | 0 <= i < |idx[1..]| ensures idx[1..][i] < |perm| {
        assert idx[1..][i] == idx[i + 1];
      }
      CountIsSum(perm, idx[1..], v);
      assert idx[0] < |perm|;
      assert Select(perm, idx) == [perm[idx[0]]] + Select(perm, idx[1..]);
    }
  }

  lemma {:induction false} PermCompose(a: seq<nat>, b: seq<nat>, n: nat)
    requires IsPerm(a, n) && IsPerm(b, n) && |a| == n
    requires forall i {:trigger b[i]} | 0 <= i < |b| :: b[i] < |a|
    ensures IsPerm(Select(a, b), n)
  {
    assert Select(a, Range(n)) == a;
    forall v: nat ensures multiset(Select(a, b))[v] == multiset(a)[v] {
      CountIsSum(a, b, v);
      CountIsSum(a, Range(n), v);
      SumPermutes(IsValue(a, v), b, Range(n));
    }
  }

  /** What the children are sorted into does not depend on the order they arrive in. */
  lemma {:induction false} SortAnyArrival(t: Tree, arrival: seq<nat>, u: Tree, r: Tree)
    requires IsPerm(arrival, |t.kids|) && |arrival| == |t.kids| == |u.kids|
    requires u.id == t.id && u.skip == t.skip && u.weight == t.weight
    requires forall i {:trigger arrival[i]} | 0 <= i < |arrival| :: arrival[i] < |t.kids|
    requires forall i {:trigger u.kids[i]} | 0 <= i < |u.kids| :: u.kids[i] == t.kids[arrival[i]]
    requires SortOf(u, r)
    ensures SortOf(t, r)
  {
    var perm: seq<nat>, mid: seq<Tree> :| Reordered(u.kids, perm, mid) && SortsOf(mid, r);
    PermCompose(arrival, perm, |t.kids|);
    var both := Select(arrival, perm);
    forall i | 0 <= i < |mid| ensures both[i] < |t.kids| && mid[i] == t.kids[both[i]] {
      assert perm[i] < |u.kids| && arrival[perm[i]] < |t.kids|;
    }
    assert Reordered(t.kids, both, mid);
  }
}
