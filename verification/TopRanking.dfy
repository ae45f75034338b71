/** `query_top_funcs`: the whole query, with the ranking and truncation at its end. */
module TopRanking {
  import opened Wrappers
  import opened Bytes
  import opened Sorting
  import opened TraceEvents
  import opened EventRange
  import opened EventSamples
  import opened EventBuckets
  import opened TopStreams
  import opened TopFuncs

  const MAX_LOCATIONS := 500

  datatype SortField = Zelf | WithChildren

  type Entry = (Location, Counts)

  datatype RankKey = RankKey(count: nat, func: string, file: Option<string>)

  function KeyOf(e: Entry, field: SortField): RankKey {
    RankKey(if field.Zelf? then e.1.zelf else e.1.withChildren, e.0.func, e.0.file)
  }

  // ------------------------------------------------------------------- order

  /** The characters of a string as numbers, which order it as its bytes do. */
  function Codes(s: string): (r: seq<nat>)
    ensures |r| == |s| && forall i {:trigger r[i]} | 0 <= i < |r| :: r[i] == s[i] as nat
  {
    seq(|s|, i requires 0 <= i < |s| => s[i] as nat)
  }

  lemma {:induction false} CodesInjective(a: string, b: string)
    requires Codes(a) == Codes(b)
    ensures a == b
  {
    forall i | 0 <= i < |a| ensures a[i] == b[i] {
      assert Codes(a)[i] == Codes(b)[i];
    }
  }

  predicate FileLe(a: Option<string>, b: Option<string>) {
    a.None? || (b.Some? && LexLe(Codes(a.value), Codes(b.value)))
  }

  /** Count descending, then function, then file ascending, no file first. */
  predicate RankLe(a: RankKey, b: RankKey) {
    a.count > b.count
    || (a.count == b.count && if a.func != b.func then LexLe(Codes(a.func), Codes(b.func)) else FileLe(a.file, b.file))
  }

  lemma {:induction false} RankTotal(a: RankKey, b: RankKey)
    ensures RankLe(a, b) || RankLe(b, a)
  {
    LexTotal(Codes(a.func), Codes(b.func));
    if a.file.Some? && b.file.Some? {
      LexTotal(Codes(a.file.value), Codes(b.file.value));
    }
  }

  lemma {:induction false} RankTransitive(a: RankKey, b: RankKey, c: RankKey)
    requires RankLe(a, b) && RankLe(b, c)
    ensures RankLe(a, c)
  {
    if a.count == b.count == c.count {
      if a.func == b.func == c.func {
        if a.file.Some? {
          LexTransitive(Codes(a.file.value), Codes(b.file.value), Codes(c.file.value));
        }
      } else if a.func != b.func && b.func != c.func {
        LexTransitive(Codes(a.func), Codes(b.func), Codes(c.func));
        if a.func == c.func {
          LexAntisymmetric(Codes(a.func), Codes(b.func));
          CodesInjective(a.func, b.func);
        }
      }
    }
  }

  lemma {:induction false} RankOrder()
    ensures IsOrder((a: RankKey, b: RankKey) => RankLe(a, b))
  {
    forall a: RankKey, b: RankKey ensures RankLe(a, b) || RankLe(b, a) {
      RankTotal(a, b);
    }
    forall a: RankKey, b: RankKey, c: RankKey ensures RankLe(a, b) && RankLe(b, c) ==> RankLe(a, c) {
      if RankLe(a, b) && RankLe(b, c) {
        RankTransitive(a, b, c);
      }
    }
  }

  // ----------------------------------------------------------------- ranking

  /** What an entry is ranked by. */
  ghost function Shown(e: Entry, field: SortField): nat {
    match field
    case Zelf => e.1.zelf
    case WithChildren => e.1.withChildren
  }

  ghost predicate TextLe(a: string, b: string) {
    LexLe(Codes(a), Codes(b))
  }

  /** The greater count comes first; equal counts are in order of function, and then of
      file, where no file comes first. */
  ghost predicate RankedBefore(a: Entry, b: Entry, field: SortField) {
    || Shown(a, field) > Shown(b, field)
    || (Shown(a, field) == Shown(b, field) && a.0.func != b.0.func && TextLe(a.0.func, b.0.func))
    || (Shown(a, field) == Shown(b, field) && a.0.func == b.0.func
        && (a.0.file == None || (b.0.file.Some? && TextLe(a.0.file.value, b.0.file.value))))
  }

  /** All entries of the map, each once, in ranked order. */
  ghost predicate IsRanking(all: seq<Entry>, aggr: Aggr, field: SortField) {
    && |all| == |aggr|
    && (forall e: Entry {:trigger multiset(all)[e]} :: multiset(all)[e] == if e.0 in aggr && aggr[e.0] == e.1 then 1 else 0)
    && (forall i, j {:trigger all[i], all[j]} | 0 <= i < j < |all| :: RankedBefore(all[i], all[j], field))
  }

  /** `aggr.into_iter().collect()`: in any order. */
  method Entries(aggr: Aggr) returns (entries: seq<Entry>)
    ensures |entries| == |aggr|
    ensures forall e: Entry {:trigger multiset(entries)[e]} :: multiset(entries)[e] == if e.0 in aggr && aggr[e.0] == e.1 then 1 else 0
  {
    entries := [];
    var rest := aggr.Keys;
    while rest != {}
      invariant rest <= aggr.Keys && |entries| + |rest| == |aggr|
      invariant forall e: Entry {:trigger multiset(entries)[e]} ::
        multiset(entries)[e] == if e.0 in aggr && e.0 !in rest && aggr[e.0] == e.1 then 1 else 0
      decreases rest
    {
      var l :| l in rest;
      entries := entries + [(l, aggr[l])];
      rest := rest - {l};
    }
  }

  method Rank(aggr: Aggr, field: SortField) returns (all: seq<Entry>)
    ensures IsRanking(all, aggr, field)
  {
    var entries := Entries(aggr);
    RankOrder();
    all := SortByKey((a: RankKey, b: RankKey) => RankLe(a, b), (e: Entry) => KeyOf(e, field), entries);
  }

  // ------------------------------------------------------------------- query

  datatype Result = Result(totalFuncs: nat, totalSamples: nat, top: seq<Entry>)

  /** `query_top_funcs`. `all` is the ranking before it is cut off. */
  method QueryTopFuncs(table: EventTable, traces: Traces, symbols: Symbols, hash: Hash, start: u64, end: u64,
                       field: SortField, filter: string, ghost events: seq<Event>)
    returns (r: Result, ghost aggr: Aggr, ghost all: seq<Entry>)
    requires IsTable(table.store, events)
    ensures end < start ==> r == Result(0, 0, [])
    ensures end >= start ==>
      var selected := Selected(events, start, end, Mixed);
      && (forall l {:trigger CountsOf(aggr, l)} :: Exact(aggr, selected, traces, symbols, filter, hash, l))
      && IsRanking(all, aggr, field)
      && r == Result(|all|, TotalCount(selected), if |all| <= 500 then all else all[..500])
  {
    if end < start {
      return Result(0, 0, []), map[], [];
    }
    var rawEvents, totalSamples := PullEvents(table, start, end, events);
    var rawFrames := PullFrames(rawEvents, traces);
    var items := PullSymbols(rawFrames, symbols, filter);
    var counts := Aggregate(items, hash);
    StreamIsNested(Selected(events, start, end, Mixed), traces, symbols, filter);
    forall l ensures Exact(counts, Selected(events, start, end, Mixed), traces, symbols, filter, hash, l) {
      RunIsExact(Selected(events, start, end, Mixed), traces, symbols, filter, hash, l);
    }
    var ranked := Rank(counts, field);
    aggr, all := counts, ranked;
    r := Result(|ranked|, totalSamples, if |ranked| <= MAX_LOCATIONS then ranked else ranked[..MAX_LOCATIONS]);
  }

  /** Down a ranking the counts never grow, and truncation drops only locations whose
      count is no greater than that of every one it keeps. */
  lemma {:induction false} TruncationKeepsTop(all: seq<Entry>, aggr: Aggr, field: SortField, n: nat, l: Location)
    requires IsRanking(all, aggr, field) && n <= |all| && l in aggr
    ensures forall i, j {:trigger all[i], all[j]} | 0 <= i < j < |all| ::
      if field == Zelf then all[i].1.zelf >= all[j].1.zelf else all[i].1.withChildren >= all[j].1.withChildren
    ensures (exists i {:trigger all[i]} :: 0 <= i < n && all[i] == (l, aggr[l]))
         || (forall i {:trigger all[i]} | 0 <= i < n ::
               && (if field == Zelf then all[i].1.zelf >= aggr[l].zelf else all[i].1.withChildren >= aggr[l].withChildren)
               && RankedBefore(all[i], (l, aggr[l]), field))
  {
    assert multiset(all)[(l, aggr[l])] == 1;
    assert (l, aggr[l]) in multiset(all);
    var j :| 0 <= j < |all| && all[j] == (l, aggr[l]);
    forall i, k | 0 <= i < k < |all|
      ensures if field == Zelf then all[i].1.zelf >= all[k].1.zelf else all[i].1.withChildren >= all[k].1.withChildren
    {
      assert RankedBefore(all[i], all[k], field);
    }
  }

  /** What the view shows of a location never exceeds the totals it is a part of. */
  lemma {:induction false} CountsBounded(aggr: Aggr, selected: seq<Event>, traces: Traces, symbols: Symbols, filter: string, hash: Hash, l: Location)
    requires Exact(aggr, selected, traces, symbols, filter, hash, l) && l in aggr
    ensures aggr[l].zelf <= aggr[l].withChildren <= TotalCount(selected)
  {
    CountsOrdered(selected, traces, symbols, filter, hash, l);
  }

  /** Without collisions, each location has the count of the events that emit it. */
  lemma {:induction false} CountsExact(aggr: Aggr, selected: seq<Event>, traces: Traces, symbols: Symbols, filter: string, hash: Hash, l: Location)
    requires Exact(aggr, selected, traces, symbols, filter, hash, l)
    requires NoCollisions(selected, traces, symbols, filter, hash)
    ensures CountsOf(aggr, l) ==
      Counts(SelfTotal(selected, traces, symbols, filter, l), EmittedTotal(selected, traces, symbols, filter, l))
  {
    ExactIffNoCollisions(selected, traces, symbols, filter, hash);
    assert EmittedTotal(selected, traces, symbols, filter, l) == CountedTotal(selected, traces, symbols, filter, l, hash);
  }
}
