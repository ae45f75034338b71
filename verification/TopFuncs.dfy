/** The aggregating stage behind the top-functions view, against what should be
    counted for each location trace by trace; then sorting and truncation. */
module TopFuncs {
  import opened Bytes
  import opened TraceEvents
  import opened EventRange
  import opened EventSamples
  import opened EventBuckets
  import opened TopStreams

  datatype Counts = Counts(zelf: nat, withChildren: nat)

  type Aggr = map<Location, Counts>

  type Hash = Location -> u64

  // -------------------------------------------------------- nested meaning

  ghost function Hashes(locs: seq<Location>, hash: Hash): (r: set<u64>)
    ensures forall i {:trigger locs[i]} | 0 <= i < |locs| :: hash(locs[i]) in r
    ensures forall h {:trigger h in r} :: h in r ==> exists i {:trigger locs[i]} :: 0 <= i < |locs| && hash(locs[i]) == h
  {
    set i | 0 <= i < |locs| :: hash(locs[i])
  }

  /** Whether a trace that emits `locs` is counted for `l`: `l` is the first of them
      to have its hash. */
  ghost predicate Counted(locs: seq<Location>, l: Location, hash: Hash) {
    exists i {:trigger locs[i]} :: 0 <= i < |locs| && locs[i] == l && hash(l) !in Hashes(locs[..i], hash)
  }

  ghost predicate IsSelf(locs: seq<Location>, l: Location) {
    |locs| > 0 && locs[0] == l
  }

  ghost function Emitted(v: TraceCount, traces: Traces, symbols: Symbols, filter: string): seq<Location> {
    if v.traceHash in traces then TraceLocations(traces[v.traceHash], symbols, filter) else []
  }

  /** Total count of the events whose trace is counted for `l`. */
  ghost function CountedTotal(events: seq<Event>, traces: Traces, symbols: Symbols, filter: string, l: Location, hash: Hash): nat {
    if |events| == 0 then 0
    else
      var v := events[|events| - 1].value;
      CountedTotal(events[..|events| - 1], traces, symbols, filter, l, hash)
      + if Counted(Emitted(v, traces, symbols, filter), l, hash) then v.count else 0
  }

  /** Total count of the events whose trace emits `l` at all. */
  ghost function EmittedTotal(events: seq<Event>, traces: Traces, symbols: Symbols, filter: string, l: Location): nat {
    if |events| == 0 then 0
    else
      var v := events[|events| - 1].value;
      EmittedTotal(events[..|events| - 1], traces, symbols, filter, l)
      + if l in Emitted(v, traces, symbols, filter) then v.count else 0
  }

  /** Total count of the events whose trace emits `l` first. */
  ghost function SelfTotal(events: seq<Event>, traces: Traces, symbols: Symbols, filter: string, l: Location): nat {
    if |events| == 0 then 0
    else
      var v := events[|events| - 1].value;
      SelfTotal(events[..|events| - 1], traces, symbols, filter, l)
      + if IsSelf(Emitted(v, traces, symbols, filter), l) then v.count else 0
  }

  ghost predicate CountedSomewhere(events: seq<Event>, traces: Traces, symbols: Symbols, filter: string, l: Location, hash: Hash) {
    |events| > 0 &&
      (CountedSomewhere(events[..|events| - 1], traces, symbols, filter, l, hash)
       || Counted(Emitted(events[|events| - 1].value, traces, symbols, filter), l, hash))
  }

  /** What the aggregation has to result in, for one location. */
  ghost predicate Exact(aggr: Aggr, events: seq<Event>, traces: Traces, symbols: Symbols, filter: string, hash: Hash, l: Location) {
    && (l in aggr <==> CountedSomewhere(events, traces, symbols, filter, l, hash))
    && CountsOf(aggr, l) ==
       Counts(SelfTotal(events, traces, symbols, filter, l), CountedTotal(events, traces, symbols, filter, l, hash))
  }

  function CountsOf(aggr: Aggr, l: Location): Counts {
    if l in aggr then aggr[l] else Counts(0, 0)
  }

  // ------------------------------------------------------------------ stage 4

  datatype State = State(aggr: Aggr, seen: set<u64>)

  function Add(c: Counts, item: Item): Counts {
    Counts(c.zelf + (if item.first then item.count else 0), c.withChildren + item.count)
  }

  function Step(s: State, item: Item, hash: Hash): State {
    var seen := if item.first then {} else s.seen;
    if hash(item.loc) in seen then State(s.aggr, seen)
    else State(s.aggr[item.loc := Add(CountsOf(s.aggr, item.loc), item)], seen + {hash(item.loc)})
  }

  ghost function Run(items: seq<Item>, hash: Hash): State
    decreases |items|
  {
    if |items| == 0 then State(map[], {}) else Step(Run(items[..|items| - 1], hash), items[|items| - 1], hash)
  }

  /** Stage 4: deduplicate within each trace, and aggregate. */
  method Aggregate(items: seq<Item>, hash: Hash) returns (aggr: Aggr)
    ensures aggr == Run(items, hash).aggr
  {
    aggr := map[];
    var seenThisTrace: set<u64> := {};
    var j := 0;
    while j < |items|
      invariant j <= |items|
      invariant State(aggr, seenThisTrace) == Run(items[..j], hash)
    {
      assert items[..j + 1][..j] == items[..j];
      var item := items[j];
      if item.first {
        seenThisTrace := {};
      }
      if hash(item.loc) !in seenThisTrace {
        seenThisTrace := seenThisTrace + {hash(item.loc)};
        var counts := CountsOf(aggr, item.loc);
        counts := Counts(counts.zelf, counts.withChildren + item.count);
        if item.first {
          counts := Counts(counts.zelf + item.count, counts.withChildren);
        }
        aggr := aggr[item.loc := counts];
      }
      j := j + 1;
    }
    assert items[..j] == items;
  }

  // ------------------------------------------------------------------ proofs

  lemma {:induction false} CountedStep(locs: seq<Location>, l: Location, hash: Hash)
    requires |locs| > 0
    ensures
      var n := |locs| - 1;
      Counted(locs, l, hash) <==> Counted(locs[..n], l, hash) || (locs[n] == l && hash(l) !in Hashes(locs[..n], hash))
  {
    var n := |locs| - 1;
    var most := locs[..n];
    if Counted(locs, l, hash) {
      var i :| 0 <= i < |locs| && locs[i] == l && hash(l) !in Hashes(locs[..i], hash);
      if i < n {
        assert most[i] == l && most[..i] == locs[..i];
      }
    }
    if Counted(most, l, hash) {
      var i :| 0 <= i < n && most[i] == l && hash(l) !in Hashes(most[..i], hash);
      assert locs[i] == l && most[..i] == locs[..i];
    }
  }

  lemma {:induction false} HashesStep(locs: seq<Location>, hash: Hash)
    requires |locs| > 0
    ensures Hashes(locs, hash) == Hashes(locs[..|locs| - 1], hash) + {hash(locs[|locs| - 1])}
  {
    var n := |locs| - 1;
    var most := locs[..n];
    forall h ensures h in Hashes(locs, hash) <==> h in Hashes(most, hash) + {hash(locs[n])} {
      if h in Hashes(locs, hash) {
        var i :| 0 <= i < |locs| && hash(locs[i]) == h;
        if i < n {
          assert most[i] == locs[i];
        }
      }
      if h in Hashes(most, hash) {
        var i :| 0 <= i < n && hash(most[i]) == h;
        assert locs[i] == most[i];
      }
    }
  }

  /** How the entry of one location changes over a trace. */
  ghost predicate Gained(before: Aggr, after: Aggr, l: Location, isSelf: bool, counted: bool, count: nat) {
    && (l in after <==> l in before || counted)
    && CountsOf(after, l) == Counts(
         CountsOf(before, l).zelf + (if isSelf then count else 0),
         CountsOf(before, l).withChildren + (if counted then count else 0))
  }

  /** Along the items of one trace, whatever was seen before it: the flag on the first
      item makes the stage forget that. */
  lemma {:induction false} AlongItems(pre: seq<Item>, locs: seq<Location>, count: nat, hash: Hash, l: Location)
    requires |locs| > 0
    ensures Run(pre + Emit(locs, true, count), hash).seen == Hashes(locs, hash)
    ensures Gained(Run(pre, hash).aggr, Run(pre + Emit(locs, true, count), hash).aggr, l,
                   IsSelf(locs, l), Counted(locs, l, hash), count)
    decreases |locs|
  {
    var n := |locs| - 1;
    HashesStep(locs, hash);
    CountedStep(locs, l, hash);
    RunLast(pre, locs, count, hash);
    if n > 0 {
      AlongItems(pre, locs[..n], count, hash, l);
      NextGains(Run(pre, hash).aggr, Run(pre + Emit(locs[..n], true, count), hash), locs, count, hash, l);
    } else {
      assert |locs[..0]| == 0;
      assert pre + Emit(locs[..n], true, count) == pre;
      StepGains(Run(pre, hash), Item(locs[n], true, count), hash, l);
    }
  }

  lemma {:induction false} RunLast(pre: seq<Item>, locs: seq<Location>, count: nat, hash: Hash)
    requires |locs| > 0
    ensures
      var n := |locs| - 1;
      Run(pre + Emit(locs, true, count), hash) ==
        Step(Run(pre + Emit(locs[..n], true, count), hash), Item(locs[n], n == 0, count), hash)
  {
    var items := pre + Emit(locs, true, count);
    assert items[..|items| - 1] == pre + Emit(locs[..|locs| - 1], true, count);
  }

  lemma {:induction false} NextGains(before: Aggr, s: State, locs: seq<Location>, count: nat, hash: Hash, l: Location)
    requires |locs| > 1 && s.seen == Hashes(locs[..|locs| - 1], hash)
    requires Gained(before, s.aggr, l, IsSelf(locs[..|locs| - 1], l), Counted(locs[..|locs| - 1], l, hash), count)
    ensures Step(s, Item(locs[|locs| - 1], false, count), hash).seen == Hashes(locs, hash)
    ensures Gained(before, Step(s, Item(locs[|locs| - 1], false, count), hash).aggr, l,
                   IsSelf(locs, l), Counted(locs, l, hash), count)
  {
    HashesStep(locs, hash);
    CountedStep(locs, l, hash);
    StepGains(s, Item(locs[|locs| - 1], false, count), hash, l);
    SeenOnce(locs, l, hash);
  }

  lemma {:induction false} StepGains(s: State, item: Item, hash: Hash, l: Location)
    ensures
      var seen := if item.first then {} else s.seen;
      var counted := item.loc == l && hash(l) !in seen;
      && Gained(s.aggr, Step(s, item, hash).aggr, l, item.first && counted, counted, item.count)
      && Step(s, item, hash).seen == seen + {hash(item.loc)}
  {
  }

  lemma {:induction false} SeenOnce(locs: seq<Location>, l: Location, hash: Hash)
    requires |locs| > 0
    ensures Counted(locs[..|locs| - 1], l, hash) ==> hash(l) in Hashes(locs[..|locs| - 1], hash)
  {
    var most := locs[..|locs| - 1];
    if Counted(most, l, hash) {
      var i :| 0 <= i < |most| && most[i] == l && hash(l) !in Hashes(most[..i], hash);
      assert hash(most[i]) in Hashes(most, hash);
    }
  }

  /** Over all items, the aggregation counts what it has to, for every location. */
  lemma {:induction false} RunIsExact(events: seq<Event>, traces: Traces, symbols: Symbols, filter: string, hash: Hash, l: Location)
    ensures Exact(Run(Items(events, traces, symbols, filter), hash).aggr, events, traces, symbols, filter, hash, l)
    decreases |events|
  {
    if |events| > 0 {
      var most := events[..|events| - 1];
      RunIsExact(most, traces, symbols, filter, hash, l);
      ItemsGain(events, traces, symbols, filter, hash, l);
      StaysExact(Run(Items(most, traces, symbols, filter), hash).aggr, Run(Items(events, traces, symbols, filter), hash).aggr,
                 events, traces, symbols, filter, hash, l);
    }
  }

  lemma {:induction false} StaysExact(before: Aggr, after: Aggr, events: seq<Event>, traces: Traces, symbols: Symbols, filter: string, hash: Hash, l: Location)
    requires |events| > 0 && Exact(before, events[..|events| - 1], traces, symbols, filter, hash, l)
    requires
      var v := events[|events| - 1].value;
      var locs := Emitted(v, traces, symbols, filter);
      Gained(before, after, l, IsSelf(locs, l), Counted(locs, l, hash), v.count)
    ensures Exact(after, events, traces, symbols, filter, hash, l)
  {
  }

  /** One more event: the entries change as its trace says. */
  lemma {:induction false} ItemsGain(events: seq<Event>, traces: Traces, symbols: Symbols, filter: string, hash: Hash, l: Location)
    requires |events| > 0
    ensures
      var most, v := events[..|events| - 1], events[|events| - 1].value;
      var locs := Emitted(v, traces, symbols, filter);
      Gained(Run(Items(most, traces, symbols, filter), hash).aggr, Run(Items(events, traces, symbols, filter), hash).aggr, l,
             IsSelf(locs, l), Counted(locs, l, hash), v.count)
  {
    var most, v := events[..|events| - 1], events[|events| - 1].value;
    var locs := Emitted(v, traces, symbols, filter);
    var pre := Items(most, traces, symbols, filter);
    if |locs| > 0 {
      AlongItems(pre, locs, v.count, hash, l);
    } else {
      assert v.traceHash in traces ==> pre + Emit(locs, true, v.count) == pre;
    }
  }

  /** The first location a trace emits is always counted. */
  lemma {:induction false} SelfIsCounted(locs: seq<Location>, l: Location, hash: Hash)
    ensures IsSelf(locs, l) ==> Counted(locs, l, hash)
    ensures Counted(locs, l, hash) ==> l in locs
  {
    if IsSelf(locs, l) {
      assert |locs[..0]| == 0;
      assert locs[0] == l && hash(l) !in Hashes(locs[..0], hash);
    }
  }

  /** For every location, even with colliding hashes and with traces that emit
      nothing: self count <= count with children <= all samples. */
  lemma {:induction false} CountsOrdered(events: seq<Event>, traces: Traces, symbols: Symbols, filter: string, hash: Hash, l: Location)
    ensures
      SelfTotal(events, traces, symbols, filter, l) <= CountedTotal(events, traces, symbols, filter, l, hash)
      <= EmittedTotal(events, traces, symbols, filter, l) <= TotalCount(events)
    decreases |events|
  {
    if |events| > 0 {
      CountsOrdered(events[..|events| - 1], traces, symbols, filter, hash, l);
      SelfIsCounted(Emitted(events[|events| - 1].value, traces, symbols, filter), l, hash);
    }
  }

  // ---------------------------------------------------------- hash collisions

  /** No two different locations of one trace have the same hash. */
  ghost predicate NoCollision(locs: seq<Location>, hash: Hash) {
    forall i, j {:trigger locs[i], locs[j]} | 0 <= i < j < |locs| && hash(locs[i]) == hash(locs[j]) :: locs[i] == locs[j]
  }

  lemma {:induction false} FirstWithHash(locs: seq<Location>, i: nat, hash: Hash) returns (j: nat)
    requires i < |locs|
    ensures j <= i && hash(locs[j]) == hash(locs[i]) && hash(locs[i]) !in Hashes(locs[..j], hash)
    decreases i
  {
    if hash(locs[i]) in Hashes(locs[..i], hash) {
      var k :| 0 <= k < i && hash(locs[..i][k]) == hash(locs[i]);
      assert locs[..i][k] == locs[k];
      j := FirstWithHash(locs, k, hash);
    } else {
      j := i;
    }
  }

  /** A trace is counted for exactly the locations it emits if and only if no two of
      them collide. */
  lemma {:induction false} CountedIffNoCollision(locs: seq<Location>, hash: Hash)
    ensures NoCollision(locs, hash) <==> forall l {:trigger Counted(locs, l, hash)} :: l in locs ==> Counted(locs, l, hash)
  {
    if NoCollision(locs, hash) {
      forall l | l in locs ensures Counted(locs, l, hash) {
        var i :| 0 <= i < |locs| && locs[i] == l;
        var j := FirstWithHash(locs, i, hash);
        assert locs[j] == l;
      }
    }
    if forall l {:trigger Counted(locs, l, hash)} :: l in locs ==> Counted(locs, l, hash) {
      forall i, j | 0 <= i < j < |locs| && hash(locs[i]) == hash(locs[j]) ensures locs[i] == locs[j] {
        OneCounted(locs, locs[i], locs[j], hash);
      }
    }
  }

  lemma {:induction false} OneCounted(locs: seq<Location>, a: Location, b: Location, hash: Hash)
    requires Counted(locs, a, hash) && Counted(locs, b, hash) && hash(a) == hash(b)
    ensures a == b
  {
    var i :| 0 <= i < |locs| && locs[i] == a && hash(a) !in Hashes(locs[..i], hash);
    var j :| 0 <= j < |locs| && locs[j] == b && hash(b) !in Hashes(locs[..j], hash);
    if i < j {
      HashSeen(locs, i, j, hash);
    } else if j < i {
      HashSeen(locs, j, i, hash);
    }
  }

  lemma {:induction false} HashSeen(locs: seq<Location>, i: nat, j: nat, hash: Hash)
    requires i < j <= |locs|
    ensures hash(locs[i]) in Hashes(locs[..j], hash)
  {
    assert locs[..j][i] == locs[i];
  }

  /** Why collisions matter: a location that follows a different one with its hash, and
      does not occur before that, is emitted but not counted. */
  lemma {:induction false} CollisionHides(locs: seq<Location>, i: nat, j: nat, hash: Hash)
    requires i < j < |locs| && locs[i] != locs[j] && hash(locs[i]) == hash(locs[j])
    requires locs[j] !in locs[..i]
    ensures locs[j] in locs && !Counted(locs, locs[j], hash)
  {
    var l := locs[j];
    if Counted(locs, l, hash) {
      var p: nat :| p < |locs| && locs[p] == l && hash(l) !in Hashes(locs[..p], hash);
      if p < i {
        InPrefix(locs, p, i);
      } else {
        HashSeen(locs, i, p, hash);
      }
    }
  }

  lemma {:induction false} InPrefix(locs: seq<Location>, p: nat, i: nat)
    requires p < i <= |locs|
    ensures locs[p] in locs[..i]
  {
    assert locs[..i][p] == locs[p];
  }

  ghost predicate NoCollisions(events: seq<Event>, traces: Traces, symbols: Symbols, filter: string, hash: Hash) {
    |events| == 0 || (
      && NoCollisions(events[..|events| - 1], traces, symbols, filter, hash)
      && (events[|events| - 1].value.count == 0 || NoCollision(Emitted(events[|events| - 1].value, traces, symbols, filter), hash)))
  }

  /** Every count with children is that of all events whose trace emits the location. */
  ghost predicate AllExact(events: seq<Event>, traces: Traces, symbols: Symbols, filter: string, hash: Hash) {
    forall l {:trigger EmittedTotal(events, traces, symbols, filter, l)} ::
      CountedTotal(events, traces, symbols, filter, l, hash) == EmittedTotal(events, traces, symbols, filter, l)
  }

  /** The counts are exact if and only if hashes do not collide within any trace that
      has a count. */
  lemma {:induction false} ExactIffNoCollisions(events: seq<Event>, traces: Traces, symbols: Symbols, filter: string, hash: Hash)
    ensures NoCollisions(events, traces, symbols, filter, hash) <==> AllExact(events, traces, symbols, filter, hash)
    decreases |events|
  {
    if |events| > 0 {
      var most, v := events[..|events| - 1], events[|events| - 1].value;
      var locs := Emitted(v, traces, symbols, filter);
      ExactIffNoCollisions(most, traces, symbols, filter, hash);
      CountedIffNoCollision(locs, hash);
      if NoCollisions(events, traces, symbols, filter, hash) {
        forall l ensures CountedTotal(events, traces, symbols, filter, l, hash) == EmittedTotal(events, traces, symbols, filter, l) {
          ExactStep(events, traces, symbols, filter, hash, l);
          assert EmittedTotal(most, traces, symbols, filter, l) == CountedTotal(most, traces, symbols, filter, l, hash);
        }
      }
      if AllExact(events, traces, symbols, filter, hash) {
        ExactBefore(events, traces, symbols, filter, hash);
      }
    }
  }

  lemma {:induction false} ExactBefore(events: seq<Event>, traces: Traces, symbols: Symbols, filter: string, hash: Hash)
    requires |events| > 0 && AllExact(events, traces, symbols, filter, hash)
    ensures AllExact(events[..|events| - 1], traces, symbols, filter, hash)
    ensures
      var v := events[|events| - 1].value;
      v.count > 0 ==> NoCollision(Emitted(v, traces, symbols, filter), hash)
  {
    var most, v := events[..|events| - 1], events[|events| - 1].value;
    var locs := Emitted(v, traces, symbols, filter);
    forall l
      ensures CountedTotal(most, traces, symbols, filter, l, hash) == EmittedTotal(most, traces, symbols, filter, l)
    {
      ExactStep(events, traces, symbols, filter, hash, l);
    }
    forall l ensures v.count == 0 || (l in locs ==> Counted(locs, l, hash)) {
      ExactStep(events, traces, symbols, filter, hash, l);
    }
    CountedIffNoCollision(locs, hash);
  }

  lemma {:induction false} ExactStep(events: seq<Event>, traces: Traces, symbols: Symbols, filter: string, hash: Hash, l: Location)
    requires |events| > 0
    ensures
      var most, v := events[..|events| - 1], events[|events| - 1].value;
      var locs := Emitted(v, traces, symbols, filter);
      CountedTotal(events, traces, symbols, filter, l, hash) == EmittedTotal(events, traces, symbols, filter, l) <==>
      && CountedTotal(most, traces, symbols, filter, l, hash) == EmittedTotal(most, traces, symbols, filter, l)
      && (v.count == 0 || (l in locs ==> Counted(locs, l, hash)))
  {
    CountsOrdered(events[..|events| - 1], traces, symbols, filter, hash, l);
    SelfIsCounted(Emitted(events[|events| - 1].value, traces, symbols, filter), l, hash);
  }
}
