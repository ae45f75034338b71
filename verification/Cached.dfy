/** Background-computed values: any number of callers and builder tasks on any number
    of caches, interleaved in any way between their atomic steps. */
module Cached {
  import opened Wrappers
  import opened Bytes

  const WORD := 0x1_0000_0000_0000_0000

  /** One second, in nanoseconds. */
  const MAX_LIFETIME := 1_000_000_000

  /** `CachedValue` */
  datatype Stamped<V> = Stamped(created: int, hash: u64, value: V)

  /** A call of `get_or_create`, between its atomic steps. `checked` is the time at which
      it looked at the value's age, and `good` whether it returned right then. */
  datatype Caller<V> =
    | Entered(hash: u64)
    | Loaded(hash: u64, value: Stamped<V>)
    | Electing(hash: u64, value: Stamped<V>, checked: int)
    | Returned(hash: u64, value: Stamped<V>, checked: int, good: bool)

  /** A background task, between its atomic steps. `out` is what it stored. */
  datatype Builder<V> =
    | Creating(hash: u64)
    | Made(hash: u64, result: V)
    | Stored(out: Stamped<V>)
    | Cleared(out: Stamped<V>)
    | Done(out: Stamped<V>)
    | Panicked

  /** One cache with its calls and tasks. `made` are the results of `create` so far,
      each with the hash of the key it was created for. */
  datatype Cell<V> = Cell(
    flag: bool, value: Stamped<V>, callers: seq<Caller<V>>, builders: seq<Builder<V>>, made: seq<(u64, V)>)

  /** `seen` is how many builds had bumped the counter at the watcher's last call. */
  datatype Watcher = Watcher(prev: u64, seen: Option<nat>)

  datatype World<V> = World(cells: seq<Cell<V>>, ctr: u64, bumps: nat, watchers: seq<Watcher>)

  // ------------------------------------------------------------------- steps

  datatype CellStep<V> =
    | Call(hash: u64)
    | Load(i: nat)
    | Check(i: nat, now: int)
    | Elect(i: nat)
    | Create(b: nat, result: V)
    | Panic(b: nat)
    | Store(b: nat, now: int)
    | Clear(b: nat)
    | Bump(b: nat)

  datatype Step<V> = OnCell(c: nat, step: CellStep<V>) | Watch(w: nat)

  function StepCaller<V>(cell: Cell<V>, i: nat, c: Caller<V>): Cell<V>
    requires i < |cell.callers|
  {
    cell.(callers := cell.callers[i := c])
  }

  function StepBuilder<V>(cell: Cell<V>, b: nat, t: Builder<V>): Cell<V>
    requires b < |cell.builders|
  {
    cell.(builders := cell.builders[b := t])
  }

  /** One atomic step; a step that is not due leaves the cache as it is. */
  function NextCell<V>(cell: Cell<V>, step: CellStep<V>): Cell<V> {
    match step
    case Call(hash) =>
      cell.(callers := cell.callers + [Entered(hash)])
    case Load(i) =>
      if i < |cell.callers| && cell.callers[i].Entered?
      then StepCaller(cell, i, Loaded(cell.callers[i].hash, cell.value))
      else cell
    case Check(i, now) =>
      if i < |cell.callers| && cell.callers[i].Loaded? then
        var c := cell.callers[i];
        StepCaller(cell, i,
          if MAX_LIFETIME >= now - c.value.created && c.value.hash == c.hash
          then Returned(c.hash, c.value, now, true) else Electing(c.hash, c.value, now))
      else cell
    case Elect(i) =>
      if i < |cell.callers| && cell.callers[i].Electing? then
        var c := cell.callers[i];
        var r := StepCaller(cell, i, Returned(c.hash, c.value, c.checked, false));
        if cell.flag then r else r.(flag := true, builders := cell.builders + [Creating(c.hash)])
      else cell
    case Create(b, result) =>
      if b < |cell.builders| && cell.builders[b].Creating? then
        var hash := cell.builders[b].hash;
        StepBuilder(cell, b, Made(hash, result)).(made := cell.made + [(hash, result)])
      else cell
    case Panic(b) =>
      if b < |cell.builders| && cell.builders[b].Creating? then StepBuilder(cell, b, Panicked) else cell
    case Store(b, now) =>
      if b < |cell.builders| && cell.builders[b].Made? then
        var out := Stamped(now, cell.builders[b].hash, cell.builders[b].result);
        StepBuilder(cell, b, Stored(out)).(value := out)
      else cell
    case Clear(b) =>
      if b < |cell.builders| && cell.builders[b].Stored? then StepBuilder(cell, b, Cleared(cell.builders[b].out)).(flag := false) else cell
    case Bump(b) =>
      if b < |cell.builders| && cell.builders[b].Cleared? then StepBuilder(cell, b, Done(cell.builders[b].out)) else cell
  }

  predicate Bumps<V>(cell: Cell<V>, step: CellStep<V>) {
    step.Bump? && step.b < |cell.builders| && cell.builders[step.b].Cleared?
  }

  function Next<V>(w: World<V>, step: Step<V>): World<V> {
    match step
    case OnCell(c, s) =>
      if c >= |w.cells| then w
      else
        var cells := w.cells[c := NextCell(w.cells[c], s)];
        if Bumps(w.cells[c], s) then World(cells, (w.ctr + 1) % WORD, w.bumps + 1, w.watchers)
        else w.(cells := cells)
    case Watch(i) =>
      if i >= |w.watchers| then w else w.(watchers := w.watchers[i := Watcher(w.ctr, Some(w.bumps))])
  }

  /** What `any_caches` returns to a watcher that calls it now. */
  function AnyCaches<V>(w: World<V>, i: nat): bool
    requires i < |w.watchers|
  {
    w.ctr != w.watchers[i].prev
  }

  // -------------------------------------------------------------- invariants

  /** Whether a task owns construction: from its election until it clears the flag, or
      forever if `create` panics. */
  predicate Owns<V>(t: Builder<V>) {
    t.Creating? || t.Made? || t.Stored? || t.Panicked?
  }

  function Owners<V>(ts: seq<Builder<V>>): nat {
    if |ts| == 0 then 0 else Owners(ts[..|ts| - 1]) + if Owns(ts[|ts| - 1]) then 1 else 0
  }

  function Finished<V>(ts: seq<Builder<V>>): nat {
    if |ts| == 0 then 0 else Finished(ts[..|ts| - 1]) + if ts[|ts| - 1].Done? then 1 else 0
  }

  function AllFinished<V>(cells: seq<Cell<V>>): nat {
    if |cells| == 0 then 0 else AllFinished(cells[..|cells| - 1]) + Finished(cells[|cells| - 1].builders)
  }

  /** The default, or a result of `create` beside the hash of the key it was made for. */
  ghost predicate Genuine<V>(s: Stamped<V>, made: seq<(u64, V)>, default: V) {
    s == Stamped(0, 0, default) || (s.hash, s.value) in made
  }

  /** Of the key asked for, and at most a second old. */
  ghost predicate StillGood<V>(s: Stamped<V>, hash: u64, now: int) {
    s.hash == hash && now - s.created <= 1_000_000_000
  }

  ghost predicate CallerOk<V>(c: Caller<V>, made: seq<(u64, V)>, default: V) {
    && (!c.Entered? ==> Genuine(c.value, made, default))
    && (c.Electing? ==> !StillGood(c.value, c.hash, c.checked))
    && (c.Returned? ==> (c.good <==> StillGood(c.value, c.hash, c.checked)))
  }

  ghost predicate BuilderOk<V>(t: Builder<V>, made: seq<(u64, V)>) {
    t.Made? ==> (t.hash, t.result) in made
  }

  ghost predicate CellInv<V>(cell: Cell<V>, default: V) {
    && Owners(cell.builders) == (if cell.flag then 1 else 0)
    && Genuine(cell.value, cell.made, default)
    && (forall i {:trigger cell.callers[i]} | 0 <= i < |cell.callers| :: CallerOk(cell.callers[i], cell.made, default))
    && (forall b {:trigger cell.builders[b]} | 0 <= b < |cell.builders| :: BuilderOk(cell.builders[b], cell.made))
  }

  ghost predicate WatcherInv(v: Watcher, bumps: nat) {
    match v.seen
    case None => v.prev == 0
    case Some(b) => b <= bumps && v.prev == (1 + b) % WORD
  }

  ghost predicate Inv<V>(w: World<V>, default: V) {
    && (forall c {:trigger w.cells[c]} | 0 <= c < |w.cells| :: CellInv(w.cells[c], default))
    && w.ctr == (1 + w.bumps) % WORD && w.bumps == AllFinished(w.cells)
    && (forall i {:trigger w.watchers[i]} | 0 <= i < |w.watchers| :: WatcherInv(w.watchers[i], w.bumps))
  }

  /** `Cached::default`, `UPDATE_CTR` at one, watchers that have not looked yet. */
  ghost predicate Initial<V>(w: World<V>, default: V) {
    && (forall c {:trigger w.cells[c]} | 0 <= c < |w.cells| :: w.cells[c] == Cell(false, Stamped(0, 0, default), [], [], []))
    && w.ctr == 1 && w.bumps == 0
    && (forall i {:trigger w.watchers[i]} | 0 <= i < |w.watchers| :: w.watchers[i] == Watcher(0, None))
  }

  ghost function After<V>(w: World<V>, steps: seq<Step<V>>): World<V>
    decreases |steps|
  {
    if |steps| == 0 then w else Next(After(w, steps[..|steps| - 1]), steps[|steps| - 1])
  }

  // ------------------------------------------------------------------ proofs

  lemma {:induction false} OwnersUpdate<V>(ts: seq<Builder<V>>, b: nat, t: Builder<V>)
    requires b < |ts|
    ensures Owners(ts[b := t]) == Owners(ts) - (if Owns(ts[b]) then 1 else 0) + (if Owns(t) then 1 else 0)
    ensures Finished(ts[b := t]) == Finished(ts) - (if ts[b].Done? then 1 else 0) + (if t.Done? then 1 else 0)
    decreases |ts|
  {
    var n := |ts| - 1;
    if b == n {
      assert ts[b := t][..n] == ts[..n];
    } else {
      assert ts[b := t][..n] == ts[..n][b := t];
      OwnersUpdate(ts[..n], b, t);
    }
  }

  lemma {:induction false} OwnersAppend<V>(ts: seq<Builder<V>>, t: Builder<V>)
    ensures Owners(ts + [t]) == Owners(ts) + (if Owns(t) then 1 else 0)
    ensures Finished(ts + [t]) == Finished(ts) + (if t.Done? then 1 else 0)
  {
    assert (ts + [t])[..|ts|] == ts;
  }

  lemma {:induction false} FinishedUpdate<V>(cells: seq<Cell<V>>, c: nat, cell: Cell<V>)
    requires c < |cells|
    ensures AllFinished(cells[c := cell]) == AllFinished(cells) - Finished(cells[c].builders) + Finished(cell.builders)
    decreases |cells|
  {
    var n := |cells| - 1;
    if c == n {
      assert cells[c := cell][..n] == cells[..n];
    } else {
      assert cells[c := cell][..n] == cells[..n][c := cell];
      FinishedUpdate(cells[..n], c, cell);
    }
  }

  lemma {:induction false} OwnerCounted<V>(ts: seq<Builder<V>>, b: nat)
    requires b < |ts| && Owns(ts[b])
    ensures Owners(ts) >= 1
    decreases |ts|
  {
    if b < |ts| - 1 {
      OwnerCounted(ts[..|ts| - 1], b);
    }
  }

  predicate OfCaller<V>(step: CellStep<V>) {
    step.Call? || step.Load? || step.Check? || step.Elect?
  }

  /** Every atomic step on a cache keeps: the flag is set exactly while one task owns
      construction, and all values about are the default or results of `create`. */
  lemma {:induction false} NextCellInv<V>(cell: Cell<V>, step: CellStep<V>, default: V)
    requires CellInv(cell, default)
    ensures CellInv(NextCell(cell, step), default)
    ensures Finished(NextCell(cell, step).builders) == Finished(cell.builders) + if Bumps(cell, step) then 1 else 0
  {
    if OfCaller(step) {
      CallerStepInv(cell, step, default);
    } else {
      BuilderStepInv(cell, step, default);
    }
  }

  lemma {:induction false} CallerStepInv<V>(cell: Cell<V>, step: CellStep<V>, default: V)
    requires CellInv(cell, default) && OfCaller(step)
    ensures CellInv(NextCell(cell, step), default)
    ensures Finished(NextCell(cell, step).builders) == Finished(cell.builders)
  {
    CallersStay(cell, step, default);
    BuildersStay(cell, step);
  }

  lemma {:induction false} CallersStay<V>(cell: Cell<V>, step: CellStep<V>, default: V)
    requires Genuine(cell.value, cell.made, default) && OfCaller(step)
    requires forall i {:trigger cell.callers[i]} | 0 <= i < |cell.callers| :: CallerOk(cell.callers[i], cell.made, default)
    ensures
      var r := NextCell(cell, step);
      && r.made == cell.made && r.value == cell.value
      && forall i {:trigger r.callers[i]} | 0 <= i < |r.callers| :: CallerOk(r.callers[i], r.made, default)
  {
    var r := NextCell(cell, step);
    forall i | 0 <= i < |r.callers| ensures CallerOk(r.callers[i], cell.made, default) {
      if i < |cell.callers| {
        assert CallerOk(cell.callers[i], cell.made, default);
      }
    }
  }

  /** Only an election changes the tasks, and then by one that owns construction. */
  lemma {:induction false} BuildersStay<V>(cell: Cell<V>, step: CellStep<V>)
    requires OfCaller(step) && Owners(cell.builders) == (if cell.flag then 1 else 0)
    requires forall b {:trigger cell.builders[b]} | 0 <= b < |cell.builders| :: BuilderOk(cell.builders[b], cell.made)
    ensures
      var r := NextCell(cell, step);
      && Owners(r.builders) == (if r.flag then 1 else 0) && Finished(r.builders) == Finished(cell.builders)
      && forall b {:trigger r.builders[b]} | 0 <= b < |r.builders| :: BuilderOk(r.builders[b], cell.made)
  {
    Elected(cell, step);
    var r, n := NextCell(cell, step), |cell.builders|;
    if |r.builders| > n {
      OneTaskMore(cell.builders, r.builders, r.builders[n], cell.made);
    }
  }

  lemma {:induction false} OneTaskMore<V>(ts: seq<Builder<V>>, r: seq<Builder<V>>, t: Builder<V>, made: seq<(u64, V)>)
    requires r == ts + [t] && t.Creating?
    requires forall b {:trigger ts[b]} | 0 <= b < |ts| :: BuilderOk(ts[b], made)
    ensures Owners(r) == Owners(ts) + 1 && Finished(r) == Finished(ts)
    ensures forall b {:trigger r[b]} | 0 <= b < |r| :: BuilderOk(r[b], made)
  {
    OwnersAppend(ts, t);
  }

  lemma {:induction false} Elected<V>(cell: Cell<V>, step: CellStep<V>)
    requires OfCaller(step)
    ensures
      var r := NextCell(cell, step);
      || (r.builders == cell.builders && r.flag == cell.flag)
      || (|r.builders| == |cell.builders| + 1 && r.builders == cell.builders + [r.builders[|cell.builders|]]
          && r.builders[|cell.builders|].Creating? && r.flag && !cell.flag)
  {
  }

  lemma {:induction false} BuilderStepInv<V>(cell: Cell<V>, step: CellStep<V>, default: V)
    requires CellInv(cell, default) && !OfCaller(step)
    ensures CellInv(NextCell(cell, step), default)
    ensures Finished(NextCell(cell, step).builders) == Finished(cell.builders) + if Bumps(cell, step) then 1 else 0
  {
    var b := step.b;
    if b < |cell.builders| && NextCell(cell, step) != cell {
      if step.Clear? {
        OwnerCounted(cell.builders, b);
      }
      StepInv(cell, NextCell(cell, step), b, default);
    }
  }

  lemma {:induction false} StepInv<V>(cell: Cell<V>, r: Cell<V>, b: nat, default: V)
    requires CellInv(cell, default) && r.callers == cell.callers && cell.made <= r.made && |r.builders| == |cell.builders|
    requires b < |cell.builders| ==> r.builders == cell.builders[b := r.builders[b]] && BuilderOk(r.builders[b], r.made)
    requires b < |cell.builders| ==>
      (if Owns(r.builders[b]) then 1 else 0) - (if Owns(cell.builders[b]) then 1 else 0) == (if r.flag then 1 else 0) - (if cell.flag then 1 else 0)
    requires b >= |cell.builders| ==> r == cell
    requires Genuine(r.value, r.made, default)
    ensures CellInv(r, default)
    ensures b < |cell.builders| ==>
      Finished(r.builders) == Finished(cell.builders) - (if cell.builders[b].Done? then 1 else 0) + (if r.builders[b].Done? then 1 else 0)
  {
    if b < |cell.builders| {
      OwnersUpdate(cell.builders, b, r.builders[b]);
      forall i | 0 <= i < |r.callers| ensures CallerOk(r.callers[i], r.made, default) {
        assert CallerOk(cell.callers[i], cell.made, default);
      }
      forall j | 0 <= j < |r.builders| ensures BuilderOk(r.builders[j], r.made) {
        if j != b {
          assert BuilderOk(cell.builders[j], cell.made);
        }
      }
    }
  }

  lemma {:induction false} InitialInv<V>(w: World<V>, default: V)
    requires Initial(w, default)
    ensures Inv(w, default)
  {
    NoneFinished(w.cells, default);
  }

  lemma {:induction false} NoneFinished<V>(cells: seq<Cell<V>>, default: V)
    requires forall c {:trigger cells[c]} | 0 <= c < |cells| :: cells[c] == Cell(false, Stamped(0, 0, default), [], [], [])
    ensures AllFinished(cells) == 0
    decreases |cells|
  {
    if |cells| > 0 {
      NoneFinished(cells[..|cells| - 1], default);
    }
  }

  lemma {:induction false} NextInv<V>(w: World<V>, step: Step<V>, default: V)
    requires Inv(w, default)
    ensures Inv(Next(w, step), default)
  {
    match step
    case OnCell(c, s) =>
      if c < |w.cells| {
        OnCellInv(w, c, s, default);
      }
    case Watch(i) =>
  }

  lemma {:induction false} OnCellInv<V>(w: World<V>, c: nat, s: CellStep<V>, default: V)
    requires Inv(w, default) && c < |w.cells|
    ensures Inv(Next(w, OnCell(c, s)), default)
  {
    var cell, next := w.cells[c], NextCell(w.cells[c], s);
    NextCellInv(cell, s, default);
    FinishedUpdate(w.cells, c, next);
    CtrKept(w, c, s);
    var r := Next(w, OnCell(c, s));
    forall d | 0 <= d < |r.cells| ensures CellInv(r.cells[d], default) {
      assert d != c ==> r.cells[d] == w.cells[d];
    }
    WatchersStay(w.watchers, w.bumps, r.bumps);
  }

  lemma {:induction false} WatchersStay(watchers: seq<Watcher>, bumps: nat, later: nat)
    requires bumps <= later && forall i {:trigger watchers[i]} | 0 <= i < |watchers| :: WatcherInv(watchers[i], bumps)
    ensures forall i {:trigger watchers[i]} | 0 <= i < |watchers| :: WatcherInv(watchers[i], later)
  {
  }

  lemma {:induction false} CtrKept<V>(w: World<V>, c: nat, s: CellStep<V>)
    requires c < |w.cells| && w.ctr == (1 + w.bumps) % WORD
    ensures Next(w, OnCell(c, s)).ctr == (1 + Next(w, OnCell(c, s)).bumps) % WORD
  {
  }

  /** In every interleaving: the invariants hold throughout. */
  lemma {:induction false} RunInv<V>(w: World<V>, steps: seq<Step<V>>, default: V)
    requires Initial(w, default)
    ensures Inv(After(w, steps), default)
    decreases |steps|
  {
    if |steps| == 0 {
      InitialInv(w, default);
    } else {
      RunInv(w, steps[..|steps| - 1], default);
      NextInv(After(w, steps[..|steps| - 1]), steps[|steps| - 1], default);
    }
  }

  // ----------------------------------------------------------------- results

  lemma {:induction false} OwnersTwo<V>(ts: seq<Builder<V>>, a: nat, b: nat)
    requires a < b < |ts| && Owns(ts[a]) && Owns(ts[b])
    ensures Owners(ts) >= 2
    decreases |ts|
  {
    if b < |ts| - 1 {
      OwnersTwo(ts[..|ts| - 1], a, b);
    } else {
      OwnerCounted(ts[..|ts| - 1], a);
    }
  }

  lemma {:induction false} SomeOwner<V>(ts: seq<Builder<V>>) returns (b: nat)
    requires Owners(ts) > 0
    ensures b < |ts| && Owns(ts[b])
    decreases |ts|
  {
    b := |ts| - 1;
    if !Owns(ts[b]) {
      b := SomeOwner(ts[..b]);
    }
  }

  /** In every interleaving, `being_constructed` is set if and only if a task owns
      construction, and never do two own it. */
  lemma {:induction false} SingleBuilder<V>(w: World<V>, steps: seq<Step<V>>, default: V, c: nat)
    requires Initial(w, default) && c < |After(w, steps).cells|
    ensures
      var cell := After(w, steps).cells[c];
      && (cell.flag <==> exists b {:trigger cell.builders[b]} :: 0 <= b < |cell.builders| && Owns(cell.builders[b]))
      && (forall a, b {:trigger cell.builders[a], cell.builders[b]} |
            0 <= a < |cell.builders| && 0 <= b < |cell.builders| && Owns(cell.builders[a]) && Owns(cell.builders[b]) :: a == b)
  {
    RunInv(w, steps, default);
    FlagIsOwner(After(w, steps).cells[c], default);
  }

  lemma {:induction false} FlagIsOwner<V>(cell: Cell<V>, default: V)
    requires CellInv(cell, default)
    ensures cell.flag <==> exists b {:trigger cell.builders[b]} :: 0 <= b < |cell.builders| && Owns(cell.builders[b])
    ensures forall a, b {:trigger cell.builders[a], cell.builders[b]} |
      0 <= a < |cell.builders| && 0 <= b < |cell.builders| && Owns(cell.builders[a]) && Owns(cell.builders[b]) :: a == b
  {
    if cell.flag {
      var b := SomeOwner(cell.builders);
      assert Owns(cell.builders[b]);
    }
    forall a | 0 <= a < |cell.builders| && Owns(cell.builders[a]) ensures cell.flag {
      OwnerCounted(cell.builders, a);
    }
    forall a, b | 0 <= a < |cell.builders| && 0 <= b < |cell.builders| && Owns(cell.builders[a]) && Owns(cell.builders[b]) ensures a == b {
      if a < b {
        OwnersTwo(cell.builders, a, b);
      } else if b < a {
        OwnersTwo(cell.builders, b, a);
      }
    }
  }

  /** In every interleaving, whatever a call returns is the default or the result of
      the `create` for the key hash stored with it; and it returned without going to the
      election if and only if the value was of its own key, and no older than a second
      when it looked. */
  lemma {:induction false} ReturnedIsGenuine<V>(w: World<V>, steps: seq<Step<V>>, default: V, c: nat, i: nat)
    requires Initial(w, default) && c < |After(w, steps).cells| && i < |After(w, steps).cells[c].callers|
    ensures
      var cell := After(w, steps).cells[c];
      var r := cell.callers[i];
      r.Returned? ==>
        && Genuine(r.value, cell.made, default)
        && (r.good <==> r.value.hash == r.hash && r.checked - r.value.created <= 1_000_000_000)
  {
    RunInv(w, steps, default);
    var cell := After(w, steps).cells[c];
    assert CallerOk(cell.callers[i], cell.made, default);
  }

  /** In every interleaving, `any_caches` answers a watcher whether builds of any cache
      completed since it last asked: exactly unless their number is a multiple of the
      counter's range. A first call also sees the counter's start. */
  lemma {:induction false} WatcherSeesBuilds<V>(w: World<V>, steps: seq<Step<V>>, default: V, i: nat)
    requires Initial(w, default) && i < |After(w, steps).watchers|
    ensures
      var now := After(w, steps);
      var done := AllFinished(now.cells);
      match now.watchers[i].seen
      case None => AnyCaches(now, i) <==> (1 + done) % 0x1_0000_0000_0000_0000 != 0
      case Some(before) => before <= done && (AnyCaches(now, i) <==> (done - before) % 0x1_0000_0000_0000_0000 != 0)
  {
    RunInv(w, steps, default);
    var now := After(w, steps);
    assert WatcherInv(now.watchers[i], now.bumps);
    CounterTells(now.ctr, now.bumps, now.watchers[i]);
  }

  lemma {:induction false} CounterTells(ctr: u64, bumps: nat, v: Watcher)
    requires ctr == (1 + bumps) % WORD && WatcherInv(v, bumps)
    ensures
      match v.seen
      case None => ctr != v.prev <==> (1 + bumps) % WORD != 0
      case Some(before) => before <= bumps && (ctr != v.prev <==> (bumps - before) % WORD != 0)
  {
    if v.seen.Some? {
      SameRest(1 + bumps, 1 + v.seen.value);
    }
  }

  lemma {:induction false} SameRest(a: nat, b: nat)
    requires b <= a
    ensures a % WORD == b % WORD <==> (a - b) % WORD == 0
  {
    assert a == WORD * (a / WORD) + a % WORD && b == WORD * (b / WORD) + b % WORD;
  }

  // ------------------------------------------------------------------- panics

  /** A `create` that panics leaves its cache as it is for good: no step of anyone
      clears the flag, elects another task or changes the value. */
  lemma {:induction false} PanicIsFinal<V>(cell: Cell<V>, step: CellStep<V>, default: V, b: nat)
    requires CellInv(cell, default) && b < |cell.builders| && cell.builders[b].Panicked?
    ensures
      var r := NextCell(cell, step);
      && r.flag && |r.builders| == |cell.builders| && r.builders[b].Panicked? && r.value == cell.value
  {
    OwnerCounted(cell.builders, b);
    if !OfCaller(step) && step.b < |cell.builders| && Owns(cell.builders[step.b]) && step.b != b {
      OwnersTwo(cell.builders, if b < step.b then b else step.b, if b < step.b then step.b else b);
      assert false;
    }
  }

  lemma {:induction false} PanicForever<V>(w: World<V>, steps: seq<Step<V>>, default: V, c: nat, b: nat)
    requires Inv(w, default) && c < |w.cells| && b < |w.cells[c].builders| && w.cells[c].builders[b].Panicked?
    ensures
      var r := After(w, steps);
      && Inv(r, default) && |r.cells| == |w.cells|
      && r.cells[c].flag && |r.cells[c].builders| == |w.cells[c].builders|
      && r.cells[c].builders[b].Panicked? && r.cells[c].value == w.cells[c].value
    decreases |steps|
  {
    if |steps| == 0 {
      OwnerCounted(w.cells[c].builders, b);
    } else {
      var most, step := steps[..|steps| - 1], steps[|steps| - 1];
      PanicForever(w, most, default, c, b);
      var m := After(w, most);
      NextInv(m, step, default);
      if step.OnCell? && step.c == c {
        PanicIsFinal(m.cells[c], step.step, default, b);
      }
    }
  }
}
