/** `event_count_buckets`: rounding a time range to buckets and counting events. */
module EventBuckets {
  import opened Bytes
  import opened TraceEvents
  import opened EventRange

  datatype Bucket = Bucket(time: nat, count: nat)

  /** `next_multiple_of` */
  function NextMultiple(v: nat, step: nat): (r: nat)
    requires step > 0
    ensures r % step == 0 && v <= r < v + step
  {
    var rest := v % step;
    if rest == 0 then v
    else
      Rounded(v, step);
      v + (step - rest)
  }

  lemma {:induction false} Rounded(v: nat, step: nat)
    requires step > 0
    ensures (v + (step - v % step)) % step == 0
  {
    assert v + (step - v % step) == step * (v / step + 1);
    MultipleRest(v / step + 1, step);
  }

  lemma {:induction false} MultipleRest(q: nat, step: nat)
    requires step > 0
    ensures (step * q) % step == 0 && (step * q) / step == q
  {
    var n, d := step * q, (step * q) / step;
    assert n == step * d + n % step;
    MulOrder(step, d, q);
    MulOrder(step, q, d);
  }

  lemma {:induction false} MulOrder(step: nat, a: int, b: int)
    requires step > 0
    ensures a <= b <==> step * a <= step * b
    ensures a < b ==> step * a + step <= step * b
  {
    if a < b {
      MulMono(step, a + 1, b);
      assert step * (a + 1) == step * a + step;
    } else {
      MulMono(step, b, a);
      if b < a {
        MulMono(step, b + 1, a);
        assert step * (b + 1) == step * b + step;
      }
    }
  }

  lemma {:induction false} MulMono(step: nat, a: int, b: int)
    requires a <= b
    ensures step * a <= step * b
  {
  }

  // ------------------------------------------------------------------- spec

  /** Total count of the events with a timestamp in `[lo, hi)`. */
  ghost function CountIn(events: seq<Event>, lo: int, hi: int): nat {
    if |events| == 0 then 0
    else
      var e := events[|events| - 1];
      CountIn(events[..|events| - 1], lo, hi) + if lo <= e.key.timestamp < hi then e.value.count else 0
  }

  ghost function TotalCount(events: seq<Event>): nat {
    if |events| == 0 then 0 else TotalCount(events[..|events| - 1]) + events[|events| - 1].value.count
  }

  ghost function BucketTotal(bs: seq<Bucket>): nat {
    if |bs| == 0 then 0 else bs[0].count + BucketTotal(bs[1..])
  }

  ghost predicate Evenly(bs: seq<Bucket>, first: nat, step: nat) {
    forall i {:trigger bs[i]} | 0 <= i < |bs| :: bs[i].time == first + step * i
  }

  /** Width of the buckets: the quotient, and one for ranges shorter than their number. */
  ghost function WidthFor(duration: nat, buckets: nat): nat
    requires buckets > 0
  {
    if duration < buckets then 1 else duration / buckets
  }

  lemma {:induction false} QuotientIsOne(duration: nat, buckets: nat)
    requires buckets > 0
    ensures duration / buckets >= 1 <==> duration >= buckets
  {
  }

  /** `max(duration / buckets, 1)` */
  function StepOf(duration: nat, buckets: nat): (r: nat)
    requires buckets > 0
    ensures r > 0
    ensures r == WidthFor(duration, buckets)
  {
    QuotientIsOne(duration, buckets);
    if duration / buckets > 1 then duration / buckets else 1
  }

  // ------------------------------------------------------------------- code

  /** The bucket bounds are multiples of the step that enclose the asked-for range
      tightly, there are at most `2 * buckets + 1` of them, every event the table
      yields for the rounded range is in exactly the bucket its timestamp rounds down
      to, and nothing is lost. `start` is not zero, and the rounded end is a `u64`. */
  method EventCountBuckets(table: EventTable, kind: SampleKind, start: u64, end: u64, buckets: nat, ghost events: seq<Event>)
    returns (bs: seq<Bucket>, ghost first: u64, ghost last: u64, ghost step: nat)
    requires IsTable(table.store, events)
    requires start < end && buckets > 0 ==> start > 0 && NextMultiple(end, StepOf(end - start, buckets)) <= U64_MAX
    ensures start >= end || buckets == 0 ==> |bs| == 0
    ensures start < end && buckets > 0 ==>
      && step == WidthFor(end - start, buckets)
      && first % step == 0 && last % step == 0
      && first < start <= first + step && end <= last < end + step
      && 2 + (if end - start < buckets then end - start else buckets) <= |bs| <= 2 * buckets + 1
      && Evenly(bs, first, step) && bs[|bs| - 1].time == last
      && Counted(bs, Selected(events, first, last, kind), step)
      && BucketTotal(bs) == TotalCount(Selected(events, first, last, kind))
      && BucketTotal(bs) >= TotalCount(Selected(events, start, end, kind))
  {
    bs, first, last, step := [], 0, 0, 0;
    if start >= end || buckets == 0 {
      return;
    }
    var width := StepOf(end - start, buckets);
    RoundDown(start, end, width);
    var from := NextMultiple(start, width) - width;
    var to := NextMultiple(end, width);
    first, last, step := from, to, width;
    ghost var q := BucketBound(start, end, buckets, from, to);
    AtLeastAsked(start, end, buckets, from, to, q);
    bs := EmptyBuckets(from, to, width, q);
    var selected := TimeRange(table, from, to, kind, events);
    SelectedInside(events, from, to, kind);
    assert to < from + width * |bs| by { MulOrder(width, q, |bs|); }
    bs := Fill(bs, selected, from, width);
    WiderCounts(events, start, end, kind, from, to);
  }

  ghost predicate Counted(bs: seq<Bucket>, selected: seq<Event>, step: nat) {
    forall i {:trigger bs[i]} | 0 <= i < |bs| :: bs[i].count == CountIn(selected, bs[i].time, bs[i].time + step)
  }

  /** `(start..=end).step_by(step).map(|x| (x, 0))` */
  method EmptyBuckets(from: nat, to: nat, step: nat, ghost q: nat) returns (bs: seq<Bucket>)
    requires step > 0 && to == from + step * q
    ensures |bs| == q + 1 && Evenly(bs, from, step)
    ensures forall i {:trigger bs[i]} | 0 <= i < |bs| :: bs[i].count == 0
  {
    bs := [];
    var t := from;
    while t <= to
      invariant |bs| <= q + 1 && t == from + step * |bs|
      invariant Evenly(bs, from, step)
      invariant forall i {:trigger bs[i]} | 0 <= i < |bs| :: bs[i].count == 0
      decreases q + 1 - |bs|
    {
      MulOrder(step, |bs|, q);
      bs := bs + [Bucket(t, 0)];
      t := t + step;
    }
    MulOrder(step, |bs|, q);
  }

  /** The loop over the events, on buckets that are all zero. */
  method Fill(empty: seq<Bucket>, selected: seq<Event>, from: nat, step: nat) returns (bs: seq<Bucket>)
    requires step > 0 && Evenly(empty, from, step)
    requires forall i {:trigger empty[i]} | 0 <= i < |empty| :: empty[i].count == 0
    requires forall i {:trigger selected[i]} | 0 <= i < |selected| ::
      from <= selected[i].key.timestamp < from + step * |empty|
    ensures |bs| == |empty| && Evenly(bs, from, step)
    ensures Counted(bs, selected, step)
    ensures BucketTotal(bs) == TotalCount(selected)
  {
    bs := empty;
    NoneYet(bs);
    var j := 0;
    while j < |selected|
      invariant j <= |selected| && |bs| == |empty|
      invariant Evenly(bs, from, step)
      invariant Counted(bs, selected[..j], step)
      invariant BucketTotal(bs) == TotalCount(selected[..j])
    {
      assert selected[..j + 1][..j] == selected[..j];
      bs := CountEvent(bs, selected[j], from, step, selected[..j + 1]);
      j := j + 1;
    }
    assert selected[..j] == selected;
  }

  /** `buckets[idx].1 += count` */
  method CountEvent(was: seq<Bucket>, e: Event, from: nat, step: nat, ghost counted: seq<Event>) returns (bs: seq<Bucket>)
    requires step > 0 && Evenly(was, from, step) && |counted| > 0 && counted[|counted| - 1] == e
    requires from <= e.key.timestamp < from + step * |was|
    requires Counted(was, counted[..|counted| - 1], step)
    ensures |bs| == |was| && Evenly(bs, from, step) && Counted(bs, counted, step)
    ensures BucketTotal(bs) == BucketTotal(was) + e.value.count
  {
    var idx := (e.key.timestamp - from) / step;
    InBounds(e.key.timestamp - from, step, |was|);
    AddTo(was, counted, from, step, idx);
    BucketUpdate(was, idx, was[idx].(count := was[idx].count + e.value.count));
    bs := was[idx := was[idx].(count := was[idx].count + e.value.count)];
  }

  // ------------------------------------------------------------------ proofs

  lemma {:induction false} RoundDown(start: nat, end: nat, step: nat)
    requires 0 < start < end && step > 0
    ensures step <= NextMultiple(start, step) <= NextMultiple(end, step)
    ensures (NextMultiple(start, step) - step) % step == 0
  {
    var a, b := NextMultiple(start, step), NextMultiple(end, step);
    var p := StepsBetween(0, a, step);
    var q := StepsBetween(0, b, step);
    MulOrder(step, p, 0);
    MulOrder(step, q, p);
    MultipleRest(p - 1, step);
    assert a - step == step * (p - 1);
  }

  /** How many steps there are between the rounded ends. */
  lemma {:induction false} BucketBound(start: nat, end: nat, buckets: nat, from: nat, to: nat) returns (q: nat)
    requires 0 < start < end && buckets > 0
    requires
      var step := StepOf(end - start, buckets);
      && from % step == 0 && to % step == 0 && from <= to
      && start <= from + step && to < end + step
    ensures to == from + StepOf(end - start, buckets) * q && q <= 2 * buckets
  {
    var step := StepOf(end - start, buckets);
    q := StepsBetween(from, to, step);
    StepTimesBuckets(end - start, buckets);
    if q > 2 * buckets {
      TooMany(step, buckets, q);
    }
  }

  /** There are more steps than buckets asked for, or than the range is long. */
  lemma {:induction false} AtLeastAsked(start: nat, end: nat, buckets: nat, from: nat, to: nat, q: nat)
    requires start < end && buckets > 0 && from < start && end <= to
    requires to == from + StepOf(end - start, buckets) * q
    ensures q > if end - start < buckets then end - start else buckets
  {
    var d, step := end - start, StepOf(end - start, buckets);
    assert d == buckets * (d / buckets) + d % buckets;
    var n := if d < buckets then d else buckets;
    assert step * n <= d;
    if q <= n {
      MulMono(step, q, n);
    }
  }

  lemma {:induction false} StepsBetween(from: nat, to: nat, step: nat) returns (q: nat)
    requires step > 0 && from % step == 0 && to % step == 0 && from <= to
    ensures to == from + step * q
  {
    assert from == step * (from / step) && to == step * (to / step);
    MulOrder(step, from / step, to / step);
    q := to / step - from / step;
  }

  lemma {:induction false} TooMany(step: nat, buckets: nat, q: nat)
    requires step > 0 && buckets > 0 && q > 2 * buckets
    ensures step * q >= step * buckets + buckets - 1 + 2 * step
  {
    MulMono(step, 2 * buckets + 1, q);
    assert step * (2 * buckets + 1) == step * buckets + step * (buckets - 1) + 2 * step;
    AtLeast(step, buckets - 1);
  }

  lemma {:induction false} AtLeast(step: nat, n: nat)
    requires step > 0
    ensures step * n >= n
  {
  }

  lemma {:induction false} StepTimesBuckets(duration: nat, buckets: nat)
    requires buckets > 0
    ensures duration < StepOf(duration, buckets) * buckets + buckets
  {
    var d := duration / buckets;
    assert duration == buckets * d + duration % buckets;
    MulMono(buckets, d, StepOf(duration, buckets));
  }

  lemma {:induction false} InBounds(d: nat, step: nat, q: nat)
    requires step > 0 && d < step * q
    ensures d / step < q
  {
    assert d == step * (d / step) + d % step;
    MulOrder(step, q, d / step);
  }

  lemma {:induction false} Slot(d: nat, step: nat, i: nat)
    requires step > 0
    ensures step * i <= d < step * i + step <==> i == d / step
  {
    assert d == step * (d / step) + d % step;
    MulOrder(step, i, d / step);
    MulOrder(step, d / step, i);
  }

  /** Adding an event's count to the bucket it rounds down to counts it in. */
  lemma {:induction false} AddTo(bs: seq<Bucket>, selected: seq<Event>, from: nat, step: nat, idx: nat)
    requires step > 0 && Evenly(bs, from, step) && |selected| > 0 && idx < |bs|
    requires Counted(bs, selected[..|selected| - 1], step)
    requires selected[|selected| - 1].key.timestamp >= from
    requires idx == (selected[|selected| - 1].key.timestamp - from) / step
    ensures
      var e := selected[|selected| - 1];
      var r := bs[idx := bs[idx].(count := bs[idx].count + e.value.count)];
      Evenly(r, from, step) && Counted(r, selected, step)
  {
    var e := selected[|selected| - 1];
    var r := bs[idx := bs[idx].(count := bs[idx].count + e.value.count)];
    forall i | 0 <= i < |r|
      ensures r[i].time == from + step * i && r[i].count == CountIn(selected, r[i].time, r[i].time + step)
    {
      assert r[i].time == bs[i].time;
      Slot(e.key.timestamp - from, step, i);
    }
  }

  lemma {:induction false} NoneYet(bs: seq<Bucket>)
    requires forall i {:trigger bs[i]} | 0 <= i < |bs| :: bs[i].count == 0
    ensures BucketTotal(bs) == 0
    decreases |bs|
  {
    if |bs| > 0 {
      NoneYet(bs[1..]);
    }
  }

  lemma {:induction false} BucketUpdate(bs: seq<Bucket>, i: nat, b: Bucket)
    requires i < |bs|
    ensures BucketTotal(bs[i := b]) == BucketTotal(bs) - bs[i].count + b.count
    decreases |bs|
  {
    if i == 0 {
      assert bs[i := b][1..] == bs[1..];
    } else {
      assert bs[i := b][1..] == bs[1..][i - 1 := b];
      BucketUpdate(bs[1..], i - 1, b);
    }
  }

  lemma {:induction false} SelectedInside(events: seq<Event>, start: u64, end: u64, kind: SampleKind)
    ensures
      var r := Selected(events, start, end, kind);
      forall i {:trigger r[i]} | 0 <= i < |r| :: start <= r[i].key.timestamp <= end
  {
    var r := Selected(events, start, end, kind);
    forall i | 0 <= i < |r| ensures start <= r[i].key.timestamp <= end {
      SelectedIn(events, start, end, kind, r[i]);
    }
  }

  /** Rounding the range outwards loses no event of the asked-for range. */
  lemma {:induction false} WiderCounts(events: seq<Event>, start: u64, end: u64, kind: SampleKind, first: u64, last: u64)
    requires first < start && end <= last
    ensures TotalCount(Selected(events, start, end, kind)) <= TotalCount(Selected(events, first, last, kind))
    decreases |events|
  {
    if |events| > 0 {
      var most, e := events[..|events| - 1], events[|events| - 1];
      WiderCounts(most, start, end, kind, first, last);
      TotalCountAppend(Selected(most, start, end, kind), e);
      TotalCountAppend(Selected(most, first, last, kind), e);
    }
  }

  lemma {:induction false} TotalCountAppend(events: seq<Event>, e: Event)
    ensures TotalCount(events + [e]) == TotalCount(events) + e.value.count
  {
    assert (events + [e])[..|events|] == events;
  }
}
