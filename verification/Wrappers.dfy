/** Small things shared by all modules. */
module Wrappers {
  datatype Option<+T> = None | Some(value: T)

  /** Position of the first element equal to `x`, or the length. */
  function IndexOf<T(==)>(s: seq<T>, x: T): (i: nat)
    ensures i <= |s|
    ensures i < |s| ==> s[i] == x
    ensures forall j {:trigger s[j]} | 0 <= j < i :: s[j] != x
  {
    if |s| == 0 then 0 else if s[0] == x then 0 else 1 + IndexOf(s[1..], x)
  }

  lemma {:induction false} IndexIsFirst<T>(s: seq<T>, x: T, i: nat)
    requires i <= |s| && (i < |s| ==> s[i] == x)
    requires forall j {:trigger s[j]} | 0 <= j < i :: s[j] != x
    ensures IndexOf(s, x) == i
  {
  }

  /** The keys of a keyed sequence. */
  function Firsts<K, V>(s: seq<(K, V)>): (r: seq<K>)
    ensures |r| == |s|
    ensures forall i {:trigger r[i]} {:trigger s[i]} | 0 <= i < |r| :: r[i] == s[i].0
  {
    seq(|s|, i requires 0 <= i < |s| => s[i].0)
  }

  ghost predicate NoRepeats<T>(s: seq<T>) {
    forall i, j {:trigger s[i], s[j]} | 0 <= i < j < |s| :: s[i] != s[j]
  }
}
