/** Fixed-width integers as bytes, and the lexicographic order that the key-value
    store and `impl_ord_from_table_key!` compare keys by. */
module Bytes {

  type byte = b: nat | b < 256
  type u64 = n: nat | n < 0x1_0000_0000_0000_0000
  type u128 = n: nat | n < 0x1_0000_0000_0000_0000_0000_0000_0000_0000

  function Pow256(n: nat): (p: nat)
    ensures p > 0
  {
    if n == 0 then 1 else 256 * Pow256(n - 1)
  }

  /** `to_le_bytes`: least significant byte first. */
  function LittleEndian(v: nat, n: nat): (b: seq<byte>)
    ensures |b| == n
    decreases n
  {
    if n == 0 then [] else [v % 256] + LittleEndian(v / 256, n - 1)
  }

  /** `from_le_bytes` */
  function FromLittleEndian(b: seq<byte>): nat
    decreases |b|
  {
    if |b| == 0 then 0 else b[0] + 256 * FromLittleEndian(b[1..])
  }

  /** `to_be_bytes`: most significant byte first. */
  function BigEndian(v: nat, n: nat): (b: seq<byte>)
    ensures |b| == n
    decreases n
  {
    if n == 0 then [] else BigEndian(v / 256, n - 1) + [v % 256]
  }

  /** `from_be_bytes` */
  function FromBigEndian(b: seq<byte>): nat
    decreases |b|
  {
    if |b| == 0 then 0 else 256 * FromBigEndian(b[..|b| - 1]) + b[|b| - 1]
  }

  /** Byte `i` of the little-endian form is digit `i` of the number in base 256. */
  lemma {:induction false} LittleEndianDigits(v: nat, n: nat, i: nat)
    requires i < n
    ensures LittleEndian(v, n)[i] == v / Pow256(i) % 256
    decreases n
  {
    if i > 0 {
      LittleEndianDigits(v / 256, n - 1, i - 1);
      assert LittleEndian(v, n)[i] == LittleEndian(v / 256, n - 1)[i - 1];
      DivideTwice(v, Pow256(i - 1));
    }
  }

  /** In the big-endian form it is the last byte but `i`. */
  lemma {:induction false} BigEndianDigits(v: nat, n: nat, i: nat)
    requires i < n
    ensures BigEndian(v, n)[n - 1 - i] == v / Pow256(i) % 256
    decreases n
  {
    if i > 0 {
      BigEndianDigits(v / 256, n - 1, i - 1);
      assert BigEndian(v, n)[n - 1 - i] == BigEndian(v / 256, n - 1)[n - 1 - i];
      DivideTwice(v, Pow256(i - 1));
    }
  }

  lemma {:induction false} DivideTwice(v: nat, p: nat)
    requires p > 0
    ensures v / 256 / p == v / (256 * p)
  {
    var a, q := v / 256, v / 256 / p;
    assert a == p * q + a % p && v == 256 * a + v % 256;
    assert v == (256 * p) * q + (256 * (a % p) + v % 256);
    QuotientIs(v, 256 * p, q, 256 * (a % p) + v % 256);
  }

  lemma {:induction false} QuotientIs(v: nat, d: nat, q: nat, r: nat)
    requires d > 0 && v == d * q + r && r < d
    ensures v / d == q
  {
    var k := v / d;
    assert v == d * k + v % d;
    MulNext(d, q, k);
    MulNext(d, k, q);
  }

  lemma {:induction false} MulNext(d: nat, a: int, b: int)
    ensures a < b ==> d * a + d <= d * b
  {
    if a < b {
      MulMonotone(d, a + 1, b);
      assert d * (a + 1) == d * a + d;
    }
  }

  lemma {:induction false} MulMonotone(d: nat, a: int, b: int)
    requires a <= b
    ensures d * a <= d * b
  {
  }

  lemma {:induction false} LittleEndianRoundTrip(v: nat, n: nat)
    requires v < Pow256(n)
    ensures FromLittleEndian(LittleEndian(v, n)) == v
    decreases n
  {
    if n > 0 {
      LittleEndianRoundTrip(v / 256, n - 1);
      assert LittleEndian(v, n)[1..] == LittleEndian(v / 256, n - 1);
    }
  }

  lemma {:induction false} BigEndianRoundTrip(v: nat, n: nat)
    requires v < Pow256(n)
    ensures FromBigEndian(BigEndian(v, n)) == v
    decreases n
  {
    if n > 0 {
      BigEndianRoundTrip(v / 256, n - 1);
      assert BigEndian(v, n)[..n - 1] == BigEndian(v / 256, n - 1);
    }
  }

  /** `a <= b` for strings of bytes, or of other units: compared one by one, a proper prefix being less. */
  predicate LexLe(a: seq<nat>, b: seq<nat>)
    decreases |a|
  {
    |a| == 0 || (|b| > 0 && (a[0] < b[0] || (a[0] == b[0] && LexLe(a[1..], b[1..]))))
  }

  /** The first position at which both differ decides, or the end of the shorter. */
  lemma {:induction false} LexAtFirst(a: seq<nat>, b: seq<nat>, i: nat)
    requires i <= |a| && i <= |b| && a[..i] == b[..i] && (i < |a| && i < |b| ==> a[i] != b[i])
    ensures LexLe(a, b) <==> i == |a| || (i < |b| && a[i] < b[i])
    decreases i
  {
    if i > 0 {
      assert a[0] == a[..i][0] == b[..i][0] == b[0];
      assert a[1..][..i - 1] == a[..i][1..] == b[..i][1..] == b[1..][..i - 1];
      LexAtFirst(a[1..], b[1..], i - 1);
    }
  }

  lemma {:induction false} LexTotal(a: seq<nat>, b: seq<nat>)
    ensures LexLe(a, b) || LexLe(b, a)
    decreases |a|
  {
    if |a| > 0 && |b| > 0 {
      LexTotal(a[1..], b[1..]);
    }
  }

  lemma {:induction false} LexTransitive(a: seq<nat>, b: seq<nat>, c: seq<nat>)
    requires LexLe(a, b) && LexLe(b, c)
    ensures LexLe(a, c)
    decreases |a|
  {
    if |a| > 0 && a[0] == b[0] == c[0] {
      LexTransitive(a[1..], b[1..], c[1..]);
    }
  }

  lemma {:induction false} LexAntisymmetric(a: seq<nat>, b: seq<nat>)
    requires LexLe(a, b) && LexLe(b, a)
    ensures a == b
    decreases |a|
  {
    if |a| > 0 {
      LexAntisymmetric(a[1..], b[1..]);
      assert a == [a[0]] + a[1..] && b == [b[0]] + b[1..];
    }
  }

  /** Behind equally long heads, the order is the heads' and then the tails'. */
  lemma {:induction false} LexConcat(a: seq<nat>, x: seq<nat>, b: seq<nat>, y: seq<nat>)
    requires |a| == |b|
    ensures LexLe(a + x, b + y) <==> if a == b then LexLe(x, y) else LexLe(a, b)
    decreases |a|
  {
    if |a| == 0 {
      assert a + x == x && b + y == y && a == b;
    } else {
      assert (a + x)[1..] == a[1..] + x && (b + y)[1..] == b[1..] + y;
      assert a == [a[0]] + a[1..] && b == [b[0]] + b[1..];
      LexConcat(a[1..], x, b[1..], y);
      if a[0] == b[0] && a[1..] != b[1..] {
        assert a != b;
      }
    }
  }

  /** Big-endian bytes order as the numbers do: which is why keys that are to be
      iterated by an integer store it so. */
  lemma {:induction false} BigEndianOrder(v: nat, w: nat, n: nat)
    requires v < Pow256(n) && w < Pow256(n)
    ensures LexLe(BigEndian(v, n), BigEndian(w, n)) <==> v <= w
    ensures BigEndian(v, n) == BigEndian(w, n) <==> v == w
    decreases n
  {
    if n > 0 {
      var a, b := BigEndian(v / 256, n - 1), BigEndian(w / 256, n - 1);
      BigEndianOrder(v / 256, w / 256, n - 1);
      LexConcat(a, [v % 256], b, [w % 256]);
      LexSingle(v % 256, w % 256);
      BigEndianRoundTrip(v, n);
      BigEndianRoundTrip(w, n);
    }
  }

  lemma {:induction false} LexSingle(x: byte, y: byte)
    ensures LexLe([x], [y]) <==> x <= y
  {
    assert |[x][1..]| == 0;
  }

  lemma {:induction false} LittleEndianInjective(v: nat, w: nat, n: nat)
    requires v < Pow256(n) && w < Pow256(n)
    ensures LittleEndian(v, n) == LittleEndian(w, n) <==> v == w
  {
    LittleEndianRoundTrip(v, n);
    LittleEndianRoundTrip(w, n);
  }

  lemma {:induction false} WordSizes()
    ensures Pow256(8) == 0x1_0000_0000_0000_0000
    ensures Pow256(16) == 0x1_0000_0000_0000_0000_0000_0000_0000_0000
  {
    assert Pow256(4) == 0x1_0000_0000;
    Pow256Add(4, 4);
    Pow256Add(8, 8);
  }

  lemma {:induction false} Pow256Add(a: nat, b: nat)
    ensures Pow256(a + b) == Pow256(a) * Pow256(b)
    decreases a
  {
    if a > 0 {
      Pow256Add(a - 1, b);
      TimesFirst(Pow256(a - 1), Pow256(b));
    }
  }

  lemma {:induction false} TimesFirst(p: nat, q: nat)
    ensures 256 * (p * q) == (256 * p) * q
  {
  }
}
