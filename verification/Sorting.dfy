/** The library sorts the program calls (`sort_unstable_by` and
    `sort_unstable_by_key`), known only through what they promise: the result is
    sorted and is a permutation of the input. Equal keys may end in any order. */
module Sorting {

  /** A total preorder, which is what a Rust comparator has to be. */
  ghost predicate IsOrder<K(!new)>(le: (K, K) -> bool) {
    && (forall x, y :: le(x, y) || le(y, x))
    && (forall x, y, z :: le(x, y) && le(y, z) ==> le(x, z))
  }

  ghost predicate SortedBy<K, T>(le: (K, K) -> bool, key: T -> K, s: seq<T>) {
    forall i, j {:trigger s[i], s[j]} | 0 <= i < j < |s| :: le(key(s[i]), key(s[j]))
  }

  method SortByKey<K(!new), T>(le: (K, K) -> bool, key: T -> K, s: seq<T>) returns (r: seq<T>)
    requires IsOrder(le)
    ensures multiset(r) == multiset(s) && |r| == |s|
    ensures SortedBy(le, key, r)
  {
    r := [];
    for i := 0 to |s|
      invariant multiset(r) == multiset(s[..i]) && |r| == i
      invariant SortedBy(le, key, r)
    {
      assert s[..i + 1] == s[..i] + [s[i]];
      r := InsertByKey(le, key, s[i], r);
    }
    assert s[..|s|] == s;
  }

  method InsertByKey<K(!new), T>(le: (K, K) -> bool, key: T -> K, x: T, s: seq<T>) returns (r: seq<T>)
    requires IsOrder(le) && SortedBy(le, key, s)
    ensures multiset(r) == multiset(s) + multiset{x} && |r| == |s| + 1
    ensures SortedBy(le, key, r)
  {
    var p := 0;
    while p < |s| && le(key(s[p]), key(x))
      invariant 0 <= p <= |s|
      invariant forall i {:trigger s[i]} | 0 <= i < p :: le(key(s[i]), key(x))
    {
      p := p + 1;
    }
    r := s[..p] + [x] + s[p..];
    InsertedAt(s, p, x);
    forall i, j | 0 <= i < j < |r| ensures le(key(r[i]), key(r[j])) {
      if i < p && j >= p {
        assert le(key(r[i]), key(x));
      }
    }
  }

  lemma {:induction false} InsertedAt<T>(s: seq<T>, p: nat, x: T)
    requires p <= |s|
    ensures multiset(s[..p] + [x] + s[p..]) == multiset(s) + multiset{x}
  {
    assert s == s[..p] + s[p..];
  }

  lemma {:induction false} RestsPermute<T>(a: seq<T>, b: seq<T>, k: nat)
    requires multiset(a) == multiset(b) && |a| > 0 && k < |b| && b[k] == a[0]
    ensures multiset(a[1..]) == multiset(b[..k] + b[k + 1..])
  {
    assert a == [a[0]] + a[1..];
    assert b == b[..k] + [b[k]] + b[k + 1..];
    var ma, mb := multiset(a[1..]), multiset(b[..k] + b[k + 1..]);
    assert multiset(a) == multiset{a[0]} + ma;
    assert multiset(b) == multiset{a[0]} + mb;
    assert ma == multiset(a) - multiset{a[0]};
    assert mb == multiset(b) - multiset{a[0]};
  }

  // ---------------------------------------------------------- strict listings

  ghost predicate IsStrict<T(!new)>(less: (T, T) -> bool) {
    forall x, y :: !(less(x, y) && less(y, x))
  }

  ghost predicate Ascends<T>(less: (T, T) -> bool, s: seq<T>) {
    forall i, j {:trigger s[i], s[j]} | 0 <= i < j < |s| :: less(s[i], s[j])
  }

  lemma {:induction false} AscendsAppend<T>(less: (T, T) -> bool, s: seq<T>, x: T)
    requires Ascends(less, s) && forall i {:trigger s[i]} | 0 <= i < |s| :: less(s[i], x)
    ensures Ascends(less, s + [x])
  {
  }

  /** There is only one way to list the same members in strictly ascending order. */
  lemma {:induction false} ListingUnique<T(!new)>(less: (T, T) -> bool, a: seq<T>, b: seq<T>)
    requires IsStrict(less) && Ascends(less, a) && Ascends(less, b)
    requires forall x {:trigger x in a} {:trigger x in b} :: x in a <==> x in b
    ensures a == b
    decreases |a|
  {
    if |a| == 0 {
      if |b| > 0 {
        FirstIsMember(b);
      }
    } else {
      var m, n := |a| - 1, |b| - 1;
      assert a[m] in b;
      LastIsLast(less, a, b);
      forall x ensures x in a[..m] <==> x in b[..n] {
        LastOnce(less, a, x);
        LastOnce(less, b, x);
      }
      ListingUnique(less, a[..m], b[..n]);
      assert a == a[..m] + [a[m]] && b == b[..n] + [b[n]];
    }
  }

  lemma {:induction false} FirstIsMember<T>(b: seq<T>)
    requires |b| > 0
    ensures b[0] in b
  {
  }

  lemma {:induction false} LastOnce<T(!new)>(less: (T, T) -> bool, a: seq<T>, x: T)
    requires IsStrict(less) && Ascends(less, a) && |a| > 0
    ensures x in a[..|a| - 1] <==> x in a && x != a[|a| - 1]
  {
    if x in a[..|a| - 1] {
      var i :| 0 <= i < |a| - 1 && a[..|a| - 1][i] == x;
      assert less(a[i], a[|a| - 1]);
    }
    if x in a && x != a[|a| - 1] {
      var i :| 0 <= i < |a| && a[i] == x;
      assert a[..|a| - 1][i] == x;
    }
  }

  lemma {:induction false} LastIsLast<T(!new)>(less: (T, T) -> bool, a: seq<T>, b: seq<T>)
    requires IsStrict(less) && Ascends(less, a) && Ascends(less, b)
    requires |a| > 0 && |b| > 0 && a[|a| - 1] in b && b[|b| - 1] in a
    ensures a[|a| - 1] == b[|b| - 1]
  {
    var m, n := |a| - 1, |b| - 1;
    var i :| 0 <= i < |a| && a[i] == b[n];
    var j :| 0 <= j < |b| && b[j] == a[m];
  }
}
