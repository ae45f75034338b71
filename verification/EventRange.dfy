/** `time_range`: which events the key range behind a time range selects. */
module EventRange {
  import opened Bytes
  import opened TraceEvents
  import opened Tables
  import opened Sorting

  datatype Event = Event(key: TraceCountId, value: TraceCount)

  type EventTable = Table<TraceCount>

  /** The order of the store. */
  ghost function Before(): (Event, Event) -> bool {
    (a: Event, b: Event) => LexLe(RawKey(a.key), RawKey(b.key)) && a.key != b.key
  }

  ghost predicate HasRealKind(e: Event) {
    e.key.kind != MaxKind
  }

  ghost predicate Stored(store: Store<TraceCount>, e: Event) {
    RawKey(e.key) in store && store[RawKey(e.key)] == e.value
  }

  ghost predicate IsKeyOf(raw: Raw, events: seq<Event>) {
    exists i {:trigger events[i]} :: 0 <= i < |events| && RawKey(events[i].key) == raw
  }

  /** The store holds exactly `events`, listed in its order. */
  ghost predicate IsTable(store: Store<TraceCount>, events: seq<Event>) {
    && Ascends(Before(), events)
    && (forall i {:trigger events[i]} | 0 <= i < |events| :: HasRealKind(events[i]) && Stored(store, events[i]))
    && (forall raw {:trigger IsKeyOf(raw, events)} | raw in store :: IsKeyOf(raw, events))
  }

  // ------------------------------------------------------------------- code

  predicate KindMatches(kind: SampleKind, k: SampleKind) {
    kind == Unknown || kind == Mixed || k == kind
  }

  function EndKind(kind: SampleKind): SampleKind {
    if kind == Unknown || kind == Mixed then MaxKind else kind
  }

  /** `time_range`: the rows of the key range, decoded and filtered by kind. */
  method TimeRange(table: EventTable, start: u64, end: u64, kind: SampleKind, ghost events: seq<Event>)
    returns (r: seq<Event>)
    requires IsTable(table.store, events)
    ensures r == Selected(events, start, end, kind)
    ensures TimeAscends(r)
  {
    var first := IntoRaw(TraceCountId(start, kind, 0));
    var last := IntoRaw(TraceCountId(end, EndKind(kind), U64_MAX));
    var rows := table.Range(first[..], last[..]);
    forall i | 0 <= i < |rows| ensures rows[i].0 in table.store && table.store[rows[i].0] == rows[i].1 {
      assert rows[i] in rows;
    }
    r := Decode(rows, kind, events, table.store);
    DecodedIsSelected(table.store, events, start, end, kind, rows, r);
    TableAscends(events);
    SelectedAscends(events, start, end, kind);
  }

  /** `Iter::next` and the filter, over all rows. */
  method Decode(rows: seq<Entry<TraceCount>>, kind: SampleKind, ghost events: seq<Event>, ghost store: Store<TraceCount>) returns (r: seq<Event>)
    requires IsTable(store, events) && Ascending(rows)
    requires forall i {:trigger rows[i]} | 0 <= i < |rows| :: rows[i].0 in store && store[rows[i].0] == rows[i].1
    ensures Ascends(Before(), r) && IsDecoded(r, rows, kind)
  {
    r := [];
    var i := 0;
    while i < |rows|
      invariant i <= |rows|
      invariant Ascends(Before(), r) && IsDecoded(r, rows[..i], kind)
    {
      ghost var e := EventOf(rows[i].0, events, store);
      var k := DecodeKey(rows[i].0, e.key);
      EarlierRows(r, rows, i, e, kind);
      DecodeNext(r, if KindMatches(kind, k.kind) then r + [e] else r, rows[..i], e, kind);
      if KindMatches(kind, k.kind) {
        AscendsAppend(Before(), r, e);
        r := r + [Event(k, rows[i].1)];
      }
      assert rows[..i + 1] == rows[..i] + [rows[i]];
      i := i + 1;
    }
    assert rows[..i] == rows;
  }

  method DecodeKey(raw: Raw, ghost k: TraceCountId) returns (r: TraceCountId)
    requires raw == RawKey(k) && k.kind != MaxKind
    ensures r == k
  {
    KeyRoundTrip(k);
    r := FromRaw(raw);
  }

  // ------------------------------------------------------------------- spec

  /** The two corners of the window the key range leaves out: queries for `Mixed`
      start after the `Unknown` event with id zero, and queries for one kind stop
      before its event with the greatest id. */
  predicate Missed(k: TraceCountId, start: u64, end: u64, kind: SampleKind) {
    || (kind == Mixed && k == TraceCountId(start, Unknown, 0))
    || (kind != Unknown && kind != Mixed && k == TraceCountId(end, kind, U64_MAX))
  }

  /** Requests for `Mixed` and for `Unknown` are for all kinds, others for their own. */
  predicate InWindow(k: TraceCountId, start: u64, end: u64, kind: SampleKind) {
    start <= k.timestamp <= end && (kind == Mixed || kind == Unknown || kind == k.kind) && !Missed(k, start, end, kind)
  }

  predicate InClosedWindow(k: TraceCountId, start: u64, end: u64, kind: SampleKind) {
    start <= k.timestamp <= end && (kind == Mixed || kind == Unknown || kind == k.kind)
  }

  /** The events in the window, in table order. */
  function Selected(events: seq<Event>, start: u64, end: u64, kind: SampleKind): seq<Event> {
    if |events| == 0 then events[..0]
    else
      var most, e := Selected(events[..|events| - 1], start, end, kind), events[|events| - 1];
      if InWindow(e.key, start, end, kind) then most + [e] else most
  }

  // ------------------------------------------------------------------ proofs

  lemma {:induction false} ZeroIsLeast(b: seq<byte>, n: nat)
    requires |b| == n
    ensures LexLe(LittleEndian(0, n), b)
    decreases n
  {
    if n > 0 {
      assert LittleEndian(0, n)[1..] == LittleEndian(0, n - 1);
      ZeroIsLeast(b[1..], n - 1);
    }
  }

  lemma {:induction false} MaxIsGreatest(b: seq<byte>, n: nat)
    requires |b| == n
    ensures LexLe(b, LittleEndian(Pow256(n) - 1, n))
    decreases n
  {
    if n > 0 {
      var m := Pow256(n) - 1;
      assert m / 256 == Pow256(n - 1) - 1 && m % 256 == 255;
      assert LittleEndian(m, n)[1..] == LittleEndian(m / 256, n - 1);
      MaxIsGreatest(b[1..], n - 1);
    }
  }

  /** The order of keys: by timestamp, then by the id's bytes, then by kind. */
  lemma {:induction false} KeyOrder(a: TraceCountId, b: TraceCountId)
    ensures LexLe(RawKey(a), RawKey(b)) <==>
      if a.timestamp != b.timestamp then a.timestamp < b.timestamp
      else if a.id != b.id then LexLe(LittleEndian(a.id, 8), LittleEndian(b.id, 8))
      else KindByte(a.kind) <= KindByte(b.kind)
  {
    WordSizes();
    var x, y := LittleEndian(a.id, 8) + [KindByte(a.kind)], LittleEndian(b.id, 8) + [KindByte(b.kind)];
    LexConcat(BigEndian(a.timestamp, 8), x, BigEndian(b.timestamp, 8), y);
    BigEndianOrder(a.timestamp, b.timestamp, 8);
    LexConcat(LittleEndian(a.id, 8), [KindByte(a.kind)], LittleEndian(b.id, 8), [KindByte(b.kind)]);
    LittleEndianInjective(a.id, b.id, 8);
    LexSingle(KindByte(a.kind), KindByte(b.kind));
  }

  lemma {:induction false} FromStart(k: TraceCountId, start: u64, kind: SampleKind)
    ensures LexLe(RawKey(TraceCountId(start, kind, 0)), RawKey(k)) <==>
      start < k.timestamp || (start == k.timestamp && (k.id > 0 || KindByte(kind) <= KindByte(k.kind)))
  {
    KeyOrder(TraceCountId(start, kind, 0), k);
    ZeroIsLeast(LittleEndian(k.id, 8), 8);
  }

  lemma {:induction false} BeforeEnd(k: TraceCountId, end: u64, kind: SampleKind)
    ensures !LexLe(RawKey(TraceCountId(end, kind, U64_MAX)), RawKey(k)) <==>
      k.timestamp < end || (k.timestamp == end && (k.id < U64_MAX || KindByte(k.kind) < KindByte(kind)))
  {
    KeyOrder(TraceCountId(end, kind, U64_MAX), k);
    if k.id < U64_MAX {
      BelowMax(k.id);
    }
  }

  lemma {:induction false} BelowMax(id: u64)
    requires id < U64_MAX
    ensures !LexLe(LittleEndian(U64_MAX, 8), LittleEndian(id, 8))
  {
    WordSizes();
    MaxIsGreatest(LittleEndian(id, 8), 8);
    LittleEndianInjective(id, U64_MAX, 8);
    if LexLe(LittleEndian(U64_MAX, 8), LittleEndian(id, 8)) {
      LexAntisymmetric(LittleEndian(U64_MAX, 8), LittleEndian(id, 8));
    }
  }

  /** The byte range with its half-open end, against timestamps: for every kind asked
      for, a stored key passes both bounds and the kind filter if and only if it is in
      the closed window, of a matching kind, and not one of the two corner keys. */
  lemma {:induction false} WindowExact(k: TraceCountId, start: u64, end: u64, kind: SampleKind)
    requires k.kind != MaxKind
    ensures
      && LexLe(RawKey(TraceCountId(start, kind, 0)), RawKey(k))
      && !LexLe(RawKey(TraceCountId(end, EndKind(kind), U64_MAX)), RawKey(k))
      && KindMatches(kind, k.kind)
      <==> InWindow(k, start, end, kind)
  {
    FromStart(k, start, kind);
    BeforeEnd(k, end, EndKind(kind));
  }

  /** The missed corners are real: the first is a key of the window that sorts before
      the start key of a query for `Mixed`, the second is itself the end key of a query
      for its kind, whichever that is, and the end is excluded. */
  lemma {:induction false} CornersAreMissed(start: u64, end: u64, kind: SampleKind)
    requires start <= end
    ensures
      var k := TraceCountId(start, Unknown, 0);
      InClosedWindow(k, start, end, Mixed) && !LexLe(RawKey(TraceCountId(start, Mixed, 0)), RawKey(k))
    ensures kind != Unknown && kind != Mixed ==>
      var k := TraceCountId(end, kind, U64_MAX);
      InClosedWindow(k, start, end, kind) && LexLe(RawKey(TraceCountId(end, EndKind(kind), U64_MAX)), RawKey(k))
  {
    FromStart(TraceCountId(start, Unknown, 0), start, Mixed);
    BeforeEnd(TraceCountId(end, kind, U64_MAX), end, EndKind(kind));
  }

  /** What the range is documented to be: all events from start to end of the kind. */
  function Closed(events: seq<Event>, start: u64, end: u64, kind: SampleKind): seq<Event> {
    if |events| == 0 then events[..0]
    else
      var most, e := Closed(events[..|events| - 1], start, end, kind), events[|events| - 1];
      if InClosedWindow(e.key, start, end, kind) then most + [e] else most
  }

  ghost predicate NoCorner(events: seq<Event>, start: u64, end: u64, kind: SampleKind) {
    forall i {:trigger events[i]} | 0 <= i < |events| :: !(start <= end && Missed(events[i].key, start, end, kind))
  }

  lemma {:induction false} ClosedIn(events: seq<Event>, start: u64, end: u64, kind: SampleKind, e: Event)
    ensures e in Closed(events, start, end, kind) <==> e in events && InClosedWindow(e.key, start, end, kind)
    decreases |events|
  {
    if |events| > 0 {
      ClosedIn(events[..|events| - 1], start, end, kind, e);
      assert events == events[..|events| - 1] + [events[|events| - 1]];
    }
  }

  /** The range is as documented if and only if no stored event has a corner key. */
  lemma {:induction false} ClosedIffNoCorner(events: seq<Event>, start: u64, end: u64, kind: SampleKind)
    requires forall i {:trigger events[i]} | 0 <= i < |events| :: HasRealKind(events[i])
    ensures Selected(events, start, end, kind) == Closed(events, start, end, kind) <==> NoCorner(events, start, end, kind)
  {
    if NoCorner(events, start, end, kind) {
      ClosedWithoutCorner(events, start, end, kind);
    } else {
      var i :| 0 <= i < |events| && start <= end && Missed(events[i].key, start, end, kind);
      ClosedIn(events, start, end, kind, events[i]);
      SelectedIn(events, start, end, kind, events[i]);
    }
  }

  lemma {:induction false} ClosedWithoutCorner(events: seq<Event>, start: u64, end: u64, kind: SampleKind)
    requires NoCorner(events, start, end, kind)
    ensures Selected(events, start, end, kind) == Closed(events, start, end, kind)
    decreases |events|
  {
    if |events| > 0 {
      var most := events[..|events| - 1];
      forall i | 0 <= i < |most| ensures !(start <= end && Missed(most[i].key, start, end, kind)) {
        assert most[i] == events[i];
      }
      ClosedWithoutCorner(most, start, end, kind);
    }
  }

  lemma {:induction false} SelectedIn(events: seq<Event>, start: u64, end: u64, kind: SampleKind, e: Event)
    ensures e in Selected(events, start, end, kind) <==> e in events && InWindow(e.key, start, end, kind)
    decreases |events|
  {
    if |events| > 0 {
      SelectedIn(events[..|events| - 1], start, end, kind, e);
      assert events == events[..|events| - 1] + [events[|events| - 1]];
    }
  }

  ghost predicate TimeAscends(events: seq<Event>) {
    forall i, j {:trigger events[i], events[j]} | 0 <= i < j < |events| :: events[i].key.timestamp <= events[j].key.timestamp
  }

  /** Tables iterate ascending by timestamp, because keys start with it. */
  lemma {:induction false} TableAscends(events: seq<Event>)
    requires Ascends(Before(), events)
    ensures TimeAscends(events)
  {
    forall i, j | 0 <= i < j < |events| ensures events[i].key.timestamp <= events[j].key.timestamp {
      assert Before()(events[i], events[j]);
      KeyOrder(events[i].key, events[j].key);
    }
  }

  lemma {:induction false} SelectedAscends(events: seq<Event>, start: u64, end: u64, kind: SampleKind)
    requires TimeAscends(events)
    ensures TimeAscends(Selected(events, start, end, kind))
    decreases |events|
  {
    if |events| > 0 {
      var n := |events| - 1;
      var most := Selected(events[..n], start, end, kind);
      SelectedAscends(events[..n], start, end, kind);
      forall i | 0 <= i < |most| ensures most[i].key.timestamp <= events[n].key.timestamp {
        SelectedIn(events[..n], start, end, kind, most[i]);
        var j :| 0 <= j < n && events[..n][j] == most[i];
        assert events[j].key.timestamp <= events[n].key.timestamp;
      }
    }
  }

  // --------------------------------------------------------- rows and events

  lemma {:induction false} EventOf(raw: Raw, events: seq<Event>, store: Store<TraceCount>) returns (e: Event)
    requires IsTable(store, events) && raw in store
    ensures e in events && HasRealKind(e) && RawKey(e.key) == raw && e.value == store[raw]
  {
    assert IsKeyOf(raw, events);
    var i :| 0 <= i < |events| && RawKey(events[i].key) == raw;
    assert Stored(store, events[i]);
    e := events[i];
  }

  /** What has been decoded of the first rows. */
  ghost predicate IsDecoded(r: seq<Event>, rows: seq<Entry<TraceCount>>, kind: SampleKind) {
    forall e: Event {:trigger e in r} ::
      e in r <==> (RawKey(e.key), e.value) in rows && HasRealKind(e) && KindMatches(kind, e.key.kind)
  }

  /** Decoding one more row. */
  lemma {:induction false} DecodeNext(was: seq<Event>, r: seq<Event>, rows: seq<Entry<TraceCount>>, e: Event, kind: SampleKind)
    requires HasRealKind(e) && IsDecoded(was, rows, kind)
    requires r == if KindMatches(kind, e.key.kind) then was + [e] else was
    ensures IsDecoded(r, rows + [(RawKey(e.key), e.value)], kind)
  {
    forall x: Event ensures x in r <==>
      (RawKey(x.key), x.value) in rows + [(RawKey(e.key), e.value)] && HasRealKind(x) && KindMatches(kind, x.key.kind)
    {
      assert x in r <==> x in was || (x == e && KindMatches(kind, e.key.kind));
      if RawKey(x.key) == RawKey(e.key) {
        KeyBytes(x.key, e.key);
      }
    }
  }

  /** All rows before this one hold events before its event. */
  lemma {:induction false} EarlierRows(was: seq<Event>, rows: seq<Entry<TraceCount>>, i: nat, e: Event, kind: SampleKind)
    requires i < |rows| && Ascending(rows) && rows[i].0 == RawKey(e.key) && IsDecoded(was, rows[..i], kind)
    ensures forall j {:trigger was[j]} | 0 <= j < |was| :: Before()(was[j], e)
  {
    forall j | 0 <= j < |was| ensures Before()(was[j], e) {
      assert was[j] in was;
      EarlierRow(was[j], rows, i, e);
    }
  }

  lemma {:induction false} EarlierRow(x: Event, rows: seq<Entry<TraceCount>>, i: nat, e: Event)
    requires i < |rows| && Ascending(rows) && rows[i].0 == RawKey(e.key)
    requires (RawKey(x.key), x.value) in rows[..i]
    ensures Before()(x, e)
  {
    var j :| 0 <= j < i && rows[..i][j] == (RawKey(x.key), x.value);
    assert rows[j].0 == RawKey(x.key);
  }

  /** Decoded rows of the key range are the selected events: both are in order and
      have the same members. */
  lemma {:induction false} DecodedIsSelected(store: Store<TraceCount>, events: seq<Event>, start: u64, end: u64, kind: SampleKind,
                                             rows: seq<Entry<TraceCount>>, r: seq<Event>)
    requires IsTable(store, events) && Ascends(Before(), r)
    requires forall e: Entry<TraceCount> {:trigger e in rows} :: e in rows <==>
      && e.0 in store && store[e.0] == e.1
      && LexLe(RawKey(TraceCountId(start, kind, 0)), e.0) && !LexLe(RawKey(TraceCountId(end, EndKind(kind), U64_MAX)), e.0)
    requires IsDecoded(r, rows, kind)
    ensures r == Selected(events, start, end, kind)
  {
    forall e ensures e in r <==> e in Selected(events, start, end, kind) {
      SelectedIn(events, start, end, kind, e);
      StoredIsListed(store, events, e);
      if HasRealKind(e) {
        WindowExact(e.key, start, end, kind);
      }
    }
    SelectedInOrder(Before(), events, start, end, kind);
    BeforeIsStrict();
    ListingUnique(Before(), r, Selected(events, start, end, kind));
  }

  lemma {:induction false} StoredIsListed(store: Store<TraceCount>, events: seq<Event>, e: Event)
    requires IsTable(store, events)
    ensures e in events <==> HasRealKind(e) && Stored(store, e)
  {
    if e in events {
      var i :| 0 <= i < |events| && events[i] == e;
    }
    if HasRealKind(e) && Stored(store, e) {
      var x := EventOf(RawKey(e.key), events, store);
      KeyBytes(e.key, x.key);
    }
  }

  lemma {:induction false} SelectedInOrder(less: (Event, Event) -> bool, events: seq<Event>, start: u64, end: u64, kind: SampleKind)
    requires Ascends(less, events)
    ensures Ascends(less, Selected(events, start, end, kind))
    decreases |events|
  {
    if |events| > 0 {
      var n := |events| - 1;
      var most := Selected(events[..n], start, end, kind);
      SelectedInOrder(less, events[..n], start, end, kind);
      forall i | 0 <= i < |most| ensures less(most[i], events[n]) {
        SelectedIn(events[..n], start, end, kind, most[i]);
        var j :| 0 <= j < n && events[..n][j] == most[i];
        assert less(events[j], events[n]);
      }
    }
  }

  lemma {:induction false} BeforeIsStrict()
    ensures IsStrict(Before())
  {
    forall a: Event, b: Event ensures !(Before()(a, b) && Before()(b, a)) {
      if Before()(a, b) && Before()(b, a) {
        LexAntisymmetric(RawKey(a.key), RawKey(b.key));
        KeyBytes(a.key, b.key);
      }
    }
  }

  lemma {:induction false} KeyBytes(a: TraceCountId, b: TraceCountId)
    requires RawKey(a) == RawKey(b)
    ensures a == b
  {
    KeyRoundTrip(a);
    KeyRoundTrip(b);
    assert RawKey(a)[16] == KindByte(a.kind) && RawKey(b)[16] == KindByte(b.kind);
  }
}
