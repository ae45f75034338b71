/** A table: the key-value store behind it, and the LRU cache in front of it. */
module Tables {
  import opened Wrappers
  import opened Bytes

  type Raw = seq<byte>

  /** Values are kept as they are: serialization is the identity. */
  type Entry<V> = (Raw, V)

  /** The cache's entries, most recently used first. */
  type Lru<V> = seq<Entry<V>>

  type Store<V> = map<Raw, V>

  // --------------------------------------------------------------------- LRU

  /** `LruCache::pop` */
  function Pop<V>(c: Lru<V>, k: Raw): Lru<V> {
    var i := IndexOf(Firsts(c), k);
    if i < |c| then c[..i] + c[i + 1..] else c
  }

  /** `LruCache::peek` */
  function Peek<V>(c: Lru<V>, k: Raw): Option<V> {
    var i := IndexOf(Firsts(c), k);
    if i < |c| then Some(c[i].1) else None
  }

  /** `LruCache::put`: the entry comes first; when full, the last one goes. */
  function Put<V>(c: Lru<V>, k: Raw, v: V, size: nat): Lru<V> {
    var r := [(k, v)] + Pop(c, k);
    if |r| > size then r[..size] else r
  }

  function Lookup<V>(m: Store<V>, k: Raw): Option<V> {
    if k in m then Some(m[k]) else None
  }

  /** What the cache and the store keep: one entry for a key, no more entries than the
      size allows, and every one of them with the stored value. */
  ghost predicate Coherent<V>(c: Lru<V>, m: Store<V>, size: nat) {
    && |c| <= size && NoRepeats(Firsts(c))
    && forall i {:trigger c[i]} | 0 <= i < |c| :: c[i].0 in m && m[c[i].0] == c[i].1
  }

  // -------------------------------------------------------------------- spec

  datatype Op<V> =
    | Get(key: Raw)
    | Insert(key: Raw, value: V)
    | Remove(key: Raw)
    | Batch(writes: seq<Entry<V>>, committed: bool)
    | ClearCache

  datatype Db<V> = Db(cache: Lru<V>, store: Store<V>)

  function Applied<V>(m: Store<V>, writes: seq<Entry<V>>): Store<V>
    decreases |writes|
  {
    if |writes| == 0 then m
    else
      var e := writes[|writes| - 1];
      Applied(m, writes[..|writes| - 1])[e.0 := e.1]
  }

  /** What `get` answers: the cache before the store. */
  function Answer<V>(db: Db<V>, k: Raw, size: nat): Option<V> {
    if size > 0 && Peek(db.cache, k).Some? then Peek(db.cache, k) else Lookup(db.store, k)
  }

  /** How each operation changes cache and store. */
  function Exec<V>(db: Db<V>, op: Op<V>, size: nat): Db<V> {
    match op
    case Get(k) =>
      var r := Answer(db, k, size);
      if size > 0 && r.Some? then Db(Put(db.cache, k, r.value, size), db.store) else db
    case Insert(k, v) =>
      Db(if size > 0 then Put(db.cache, k, v, size) else db.cache, db.store[k := v])
    case Remove(k) =>
      Db(if size > 0 then Pop(db.cache, k) else db.cache, db.store - {k})
    case Batch(writes, committed) =>
      if committed then Db(if size > 0 then [] else db.cache, Applied(db.store, writes)) else db
    case ClearCache =>
      Db([], db.store)
  }

  /** The same operations on a plain map. */
  function PlainExec<V>(m: Store<V>, op: Op<V>): Store<V> {
    match op
    case Get(_) => m
    case Insert(k, v) => m[k := v]
    case Remove(k) => m - {k}
    case Batch(writes, committed) => if committed then Applied(m, writes) else m
    case ClearCache => m
  }

  // ------------------------------------------------------------------- code

  class Table<V> {
    const cacheSize: nat
    var cache: Lru<V>
    var store: Store<V>

    ghost function Now(): Db<V>
      reads this
    {
      Db(cache, store)
    }

    ghost predicate Valid()
      reads this
    {
      Coherent(cache, store, cacheSize)
    }

    /** Opens a table on what is already stored. */
    constructor (cacheSize: nat, store: Store<V>)
      ensures Valid() && this.cacheSize == cacheSize && Now() == Db([], store)
    {
      this.cacheSize, this.store, cache := cacheSize, store, [];
    }

    method Get(k: Raw) returns (r: Option<V>)
      requires Valid()
      modifies this`cache
      ensures Valid() && Now() == Exec(old(Now()), Op.Get(k), cacheSize)
      ensures r == if k in store then Some(store[k]) else None
      ensures r.Some? && cacheSize > 0 ==> |cache| > 0 && cache[0] == (k, r.value)
    {
      ExecCoherent(Now(), Op.Get(k), cacheSize);
      AnswerIsStored(Now(), k, cacheSize);
      if cacheSize > 0 {
        var i := IndexOf(Firsts(cache), k);
        if i < |cache| {
          r := Some(cache[i].1);
          cache := [cache[i]] + (cache[..i] + cache[i + 1..]);
          return;
        }
      }
      if k !in store {
        return None;
      }
      var raw := store[k];
      if cacheSize > 0 {
        cache := Put(cache, k, raw, cacheSize);
      }
      r := Some(raw);
    }

    method Insert(k: Raw, v: V)
      requires Valid()
      modifies this
      ensures Valid() && Now() == Exec(old(Now()), Op.Insert(k, v), cacheSize)
      ensures store == old(store)[k := v] && (cacheSize > 0 ==> |cache| > 0 && cache[0] == (k, v))
    {
      ExecCoherent(Now(), Op.Insert(k, v), cacheSize);
      if cacheSize > 0 {
        cache := Put(cache, k, v, cacheSize);
      }
      store := store[k := v];
    }

    method Remove(k: Raw)
      requires Valid()
      modifies this
      ensures Valid() && Now() == Exec(old(Now()), Op.Remove(k), cacheSize)
      ensures store == old(store) - {k} && forall i {:trigger cache[i]} | 0 <= i < |cache| :: cache[i].0 != k
    {
      ExecCoherent(Now(), Op.Remove(k), cacheSize);
      PopCoherent(cache, store, cacheSize, k);
      if cacheSize > 0 {
        cache := Pop(cache, k);
      }
      store := store - {k};
    }

    method ClearCache()
      requires Valid()
      modifies this`cache
      ensures Valid() && Now() == Exec(old(Now()), Op.ClearCache, cacheSize)
      ensures |cache| == 0
    {
      cache := [];
    }

    /** `iter`: what the store's iterator yields. */
    method Iter() returns (rows: seq<Entry<V>>)
      ensures Ascending(rows)
      ensures forall e: Entry<V> {:trigger e in rows} :: e in rows <==> e.0 in store && store[e.0] == e.1
    {
      rows := Collect(store, store.Keys);
    }

    /** `range`: what the store's iterator yields for `[lo, hi)`. */
    method Range(lo: Raw, hi: Raw) returns (rows: seq<Entry<V>>)
      ensures Ascending(rows)
      ensures forall e: Entry<V> {:trigger e in rows} ::
        e in rows <==> e.0 in store && store[e.0] == e.1 && LexLe(lo, e.0) && !LexLe(hi, e.0)
    {
      rows := Collect(store, set k | k in store && LexLe(lo, k) && !LexLe(hi, k));
    }
  }

  class InsertionBatch<V> {
    const table: Table<V>
    var writes: seq<Entry<V>>

    constructor (table: Table<V>)
      ensures this.table == table && |writes| == 0
    {
      this.table, writes := table, [];
    }

    method Insert(k: Raw, v: V)
      modifies this`writes
      ensures writes == old(writes) + [(k, v)]
    {
      writes := writes + [(k, v)];
    }

    method Commit()
      requires table.Valid()
      modifies table
      ensures table.Valid() && table.Now() == Exec(old(table.Now()), Op.Batch(writes, true), table.cacheSize)
      ensures |table.cache| == 0
    {
      ExecCoherent(table.Now(), Op.Batch(writes, true), table.cacheSize);
      table.store := Applied(table.store, writes);
      if table.cacheSize > 0 {
        table.cache := [];
      }
    }
  }

  // ------------------------------------------------------------------ proofs

  lemma {:induction false} AnswerIsStored<V>(db: Db<V>, k: Raw, size: nat)
    requires Coherent(db.cache, db.store, size)
    ensures Answer(db, k, size) == Lookup(db.store, k)
  {
    var i := IndexOf(Firsts(db.cache), k);
    if i < |db.cache| {
      assert db.cache[i].0 == k;
    }
  }

  lemma {:induction false} PopCoherent<V>(c: Lru<V>, m: Store<V>, size: nat, k: Raw)
    requires Coherent(c, m, size)
    ensures Coherent(Pop(c, k), m, size)
    ensures forall i {:trigger Pop(c, k)[i]} | 0 <= i < |Pop(c, k)| :: Pop(c, k)[i].0 != k
  {
    var i := IndexOf(Firsts(c), k);
    if i < |c| {
      var r := Pop(c, k);
      forall j | 0 <= j < |r| ensures r[j] == c[if j < i then j else j + 1] && r[j].0 != k {
        assert Firsts(c)[if j < i then j else j + 1] == r[j].0;
      }
    } else {
      forall j | 0 <= j < |c| ensures c[j].0 != k {
        assert Firsts(c)[j] != k;
      }
    }
  }

  lemma {:induction false} PutCoherent<V>(c: Lru<V>, m: Store<V>, size: nat, k: Raw, v: V)
    requires Coherent(c, m, size) && size > 0
    ensures Coherent(Put(c, k, v, size), m[k := v], size)
  {
    PopCoherent(c, m, size, k);
    var rest, r := Pop(c, k), Put(c, k, v, size);
    forall i | 0 < i < |r| ensures r[i] == rest[i - 1] && r[i].0 != k {
    }
  }

  lemma {:induction false} ExecCoherent<V>(db: Db<V>, op: Op<V>, size: nat)
    requires Coherent(db.cache, db.store, size)
    ensures Coherent(Exec(db, op, size).cache, Exec(db, op, size).store, size)
  {
    match op
    case Get(k) =>
      AnswerIsStored(db, k, size);
      if size > 0 && k in db.store {
        PutCoherent(db.cache, db.store, size, k, db.store[k]);
        assert db.store[k := db.store[k]] == db.store;
      }
    case Insert(k, v) =>
      if size > 0 {
        PutCoherent(db.cache, db.store, size, k, v);
      }
    case Remove(k) =>
      PopCoherent(db.cache, db.store, size, k);
    case Batch(writes, committed) =>
    case ClearCache =>
  }

  // ---------------------------------------------------------------- histories

  ghost function After<V>(db: Db<V>, ops: seq<Op<V>>, size: nat): Db<V>
    decreases |ops|
  {
    if |ops| == 0 then db else Exec(After(db, ops[..|ops| - 1], size), ops[|ops| - 1], size)
  }

  ghost function PlainAfter<V>(m: Store<V>, ops: seq<Op<V>>): Store<V>
    decreases |ops|
  {
    if |ops| == 0 then m else PlainExec(PlainAfter(m, ops[..|ops| - 1]), ops[|ops| - 1])
  }

  /** After every history of operations, on any table, the next lookup of any key
      answers what a plain map would after the same history, the store is that map,
      and the cache is coherent with it and within its size. */
  lemma {:induction false} HistoryIsPlain<V>(store: Store<V>, ops: seq<Op<V>>, size: nat, k: Raw)
    ensures
      var db, m := After(Db([], store), ops, size), PlainAfter(store, ops);
      && db.store == m && Coherent(db.cache, m, size)
      && Answer(db, k, size) == if k in m then Some(m[k]) else None
    decreases |ops|
  {
    if |ops| > 0 {
      var n := |ops| - 1;
      HistoryIsPlain(store, ops[..n], size, k);
      ExecCoherent(After(Db([], store), ops[..n], size), ops[n], size);
    }
    AnswerIsStored(After(Db([], store), ops, size), k, size);
  }

  /** A batch leaves the keys it does not write alone. */
  lemma {:induction false} AppliedLeaves<V>(m: Store<V>, writes: seq<Entry<V>>, k: Raw)
    requires forall j {:trigger writes[j]} | 0 <= j < |writes| :: writes[j].0 != k
    ensures Lookup(Applied(m, writes), k) == Lookup(m, k)
    decreases |writes|
  {
    if |writes| > 0 {
      AppliedLeaves(m, writes[..|writes| - 1], k);
    }
  }

  /** The last write to a key wins. */
  lemma {:induction false} AppliedIsLast<V>(m: Store<V>, writes: seq<Entry<V>>, i: nat)
    requires i < |writes| && forall j {:trigger writes[j]} | i < j < |writes| :: writes[j].0 != writes[i].0
    ensures Lookup(Applied(m, writes), writes[i].0) == Some(writes[i].1)
    decreases |writes|
  {
    var n := |writes| - 1;
    if i < n {
      AppliedIsLast(m, writes[..n], i);
    }
  }

  // ----------------------------------------------------------------- eviction

  lemma {:induction false} PeekIs<V>(c: Lru<V>, i: nat)
    requires NoRepeats(Firsts(c)) && i < |c|
    ensures Peek(c, c[i].0) == Some(c[i].1)
  {
    var j := IndexOf(Firsts(c), c[i].0);
    assert Firsts(c)[i] == c[i].0;
  }

  lemma {:induction false} PeekNone<V>(c: Lru<V>, k: Raw)
    requires forall i {:trigger c[i]} | 0 <= i < |c| :: c[i].0 != k
    ensures Peek(c, k) == None
  {
  }

  /** Putting an entry makes it the first, and drops no other key but the least
      recently used one, which only goes if the cache is full and the key is new. */
  lemma {:induction false} PutEvictsLast<V>(c: Lru<V>, m: Store<V>, size: nat, k: Raw, v: V, x: Raw)
    requires Coherent(c, m, size) && size > 0 && x != k
    ensures Put(c, k, v, size)[0] == (k, v)
    ensures Peek(Put(c, k, v, size), x) ==
      if |c| == size && Peek(c, k).None? && c[|c| - 1].0 == x then None else Peek(c, x)
  {
    PutCoherent(c, m, size, k, v);
    var i := IndexOf(Firsts(c), x);
    if i < |c| {
      PutKeepsOrDrops(c, size, k, v, i);
    } else {
      PutAddsNone(c, size, k, v, x);
    }
  }

  /** A hit makes its entry the first and leaves the others in order; a miss does the
      same with what the store has, and only then may the last entry go. */
  lemma {:induction false} GetMovesFirst<V>(db: Db<V>, k: Raw, size: nat, i: nat)
    requires Coherent(db.cache, db.store, size) && size > 0 && i <= |db.cache|
    requires if i < |db.cache| then db.cache[i].0 == k else k !in Firsts(db.cache)
    ensures
      var c, r := db.cache, Exec(db, Op.Get(k), size);
      && r.store == db.store
      && r.cache ==
           if i < |c| then [c[i]] + (c[..i] + c[i + 1..])
           else if k !in db.store then c
           else if |c| < size then [(k, db.store[k])] + c
           else [(k, db.store[k])] + c[..size - 1]
  {
    AnswerIsStored(db, k, size);
    if k in db.store {
      PutAt(db.cache, k, db.store[k], size, i);
    }
  }

  lemma {:induction false} PutAt<V>(c: Lru<V>, k: Raw, v: V, size: nat, i: nat)
    requires NoRepeats(Firsts(c)) && |c| <= size && size > 0 && i <= |c|
    requires if i < |c| then c[i].0 == k else k !in Firsts(c)
    ensures Put(c, k, v, size) ==
      if i < |c| then [(k, v)] + (c[..i] + c[i + 1..]) else if |c| < size then [(k, v)] + c else [(k, v)] + c[..size - 1]
  {
    RemoveLeaves(c, k, i);
    if i == |c| == size {
      assert ([(k, v)] + c)[..size] == [(k, v)] + c[..size - 1];
    }
  }

  lemma {:induction false} AtPosition(keys: seq<Raw>, k: Raw, i: nat)
    requires NoRepeats(keys) && i <= |keys| && if i < |keys| then keys[i] == k else k !in keys
    ensures IndexOf(keys, k) == i
  {
    IndexIsFirst(keys, k, i);
  }

  /** Removing a key leaves all other entries in order. */
  lemma {:induction false} RemoveLeaves<V>(c: Lru<V>, k: Raw, i: nat)
    requires NoRepeats(Firsts(c)) && i <= |c| && if i < |c| then c[i].0 == k else k !in Firsts(c)
    ensures Pop(c, k) == if i < |c| then c[..i] + c[i + 1..] else c
  {
    assert i < |c| ==> Firsts(c)[i] == k;
    AtPosition(Firsts(c), k, i);
  }

  lemma {:induction false} PopMember<V>(c: Lru<V>, k: Raw, p: nat)
    requires p < |Pop(c, k)|
    ensures Pop(c, k)[p] in c
  {
  }

  lemma {:induction false} PutAddsNone<V>(c: Lru<V>, size: nat, k: Raw, v: V, x: Raw)
    requires size > 0 && x != k && x !in Firsts(c)
    ensures Peek(Put(c, k, v, size), x) == None
  {
    var r := Put(c, k, v, size);
    forall p | 0 <= p < |r| ensures r[p].0 != x {
      if p > 0 {
        PopMember(c, k, p - 1);
        var q :| 0 <= q < |c| && c[q] == Pop(c, k)[p - 1];
        assert Firsts(c)[q] != x;
      }
    }
    PeekNone(r, x);
  }

  lemma {:induction false} PutKeepsOrDrops<V>(c: Lru<V>, size: nat, k: Raw, v: V, i: nat)
    requires |c| <= size && size > 0 && NoRepeats(Firsts(c)) && NoRepeats(Firsts(Put(c, k, v, size)))
    requires i < |c| && c[i].0 != k
    ensures Peek(Put(c, k, v, size), c[i].0) ==
      if |c| == size && Peek(c, k).None? && i == |c| - 1 then None else Some(c[i].1)
  {
    var at := IndexOf(Firsts(c), k);
    if at == |c| == size && i == |c| - 1 {
      PutDrops(c, size, k, v);
    } else {
      PutKeeps(c, size, k, v, i);
    }
  }

  lemma {:induction false} PutKeeps<V>(c: Lru<V>, size: nat, k: Raw, v: V, i: nat)
    requires |c| <= size && size > 0 && NoRepeats(Firsts(Put(c, k, v, size)))
    requires i < |c| && c[i].0 != k && (IndexOf(Firsts(c), k) == |c| == size ==> i < |c| - 1)
    ensures Peek(Put(c, k, v, size), c[i].0) == Some(c[i].1)
  {
    var at := IndexOf(Firsts(c), k);
    var j := if i < at then i + 1 else i;
    assert i != at;
    assert Pop(c, k)[j - 1] == c[i];
    assert Put(c, k, v, size)[j] == c[i];
    PeekIs(Put(c, k, v, size), j);
  }

  lemma {:induction false} PutDrops<V>(c: Lru<V>, size: nat, k: Raw, v: V)
    requires |c| == size > 0 && NoRepeats(Firsts(c)) && IndexOf(Firsts(c), k) == |c| && c[|c| - 1].0 != k
    ensures Peek(Put(c, k, v, size), c[|c| - 1].0) == None
  {
    var r, n := Put(c, k, v, size), |c| - 1;
    forall p | 0 <= p < |r| ensures r[p].0 != c[n].0 {
      if p > 0 {
        assert r[p] == c[p - 1];
        assert Firsts(c)[p - 1] != Firsts(c)[n];
      }
    }
    PeekNone(r, c[n].0);
  }

  // ----------------------------------------------------------------- iteration

  ghost predicate Ascending<V>(rows: seq<Entry<V>>) {
    forall i, j {:trigger rows[i], rows[j]} | 0 <= i < j < |rows| :: LexLe(rows[i].0, rows[j].0) && rows[i].0 != rows[j].0
  }

  /** The stored entries with the given keys, in the order of their keys: the least
      key that is left is taken out again and again. */
  method Collect<V>(store: Store<V>, keys: set<Raw>) returns (rows: seq<Entry<V>>)
    requires keys <= store.Keys
    ensures Ascending(rows)
    ensures forall e: Entry<V> {:trigger e in rows} :: e in rows <==> e.0 in keys && store[e.0] == e.1
  {
    rows := [];
    var rest := keys;
    while rest != {}
      invariant rest <= keys
      invariant Ascending(rows)
      invariant forall i, k {:trigger rows[i], k in rest} | 0 <= i < |rows| && k in rest :: LexLe(rows[i].0, k)
      invariant forall e: Entry<V> {:trigger e in rows} :: e in rows <==> e.0 in keys && e.0 !in rest && store[e.0] == e.1
      decreases rest
    {
      var k := Least(rest);
      ghost var was := rows;
      rows := rows + [(k, store[k])];
      forall i | 0 <= i < |was| ensures was[i].0 != k {
        assert was[i] in was;
      }
      rest := rest - {k};
    }
  }

  method Least(keys: set<Raw>) returns (k: Raw)
    requires keys != {}
    ensures k in keys && forall x {:trigger x in keys} | x in keys :: LexLe(k, x)
  {
    k :| k in keys;
    var rest := keys - {k};
    LexTotal(k, k);
    while rest != {}
      invariant rest <= keys && k in keys
      invariant forall x {:trigger x in keys} | x in keys && x !in rest :: LexLe(k, x)
      decreases rest
    {
      var c :| c in rest;
      LexTotal(c, k);
      LexTotal(c, c);
      rest := rest - {c};
      if !LexLe(k, c) {
        forall x | x in keys && x !in rest && x != c ensures LexLe(c, x) {
          LexTransitive(c, k, x);
        }
        k := c;
      }
    }
  }
}
