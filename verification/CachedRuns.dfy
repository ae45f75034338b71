/** Whole runs of the background caches: whose result is stored, and when construction
    is blocked for good. */
module CachedRuns {
  import opened Wrappers
  import opened Bytes
  import opened Cached

  // ------------------------------------------------------------ latest result

  predicate HasStored<V>(t: Builder<V>) {
    t.Stored? || t.Cleared? || t.Done?
  }

  /** What the most recently elected of the tasks that have stored something stored. */
  ghost function Latest<V>(ts: seq<Builder<V>>, default: V): Stamped<V>
    decreases |ts|
  {
    if |ts| == 0 then Stamped(0, 0, default)
    else if HasStored(ts[|ts| - 1]) then ts[|ts| - 1].out
    else Latest(ts[..|ts| - 1], default)
  }

  /** Only the most recently elected task can own construction. */
  ghost predicate OwnerIsLast<V>(ts: seq<Builder<V>>) {
    forall b {:trigger ts[b]} | 0 <= b < |ts| - 1 :: !Owns(ts[b])
  }

  ghost predicate Current<V>(cell: Cell<V>, default: V) {
    OwnerIsLast(cell.builders) && cell.value == Latest(cell.builders, default)
  }

  lemma {:induction false} LatestUpdate<V>(ts: seq<Builder<V>>, b: nat, t: Builder<V>, default: V)
    requires b < |ts| && HasStored(ts[b]) && HasStored(t) && t.out == ts[b].out
    ensures Latest(ts[b := t], default) == Latest(ts, default)
    decreases |ts|
  {
    var n := |ts| - 1;
    if b < n {
      assert ts[b := t][..n] == ts[..n][b := t];
      LatestUpdate(ts[..n], b, t, default);
    }
  }

  /** The last task goes on, without storing anything yet. */
  lemma {:induction false} LatestSame<V>(ts: seq<Builder<V>>, t: Builder<V>, default: V)
    requires |ts| > 0 && !HasStored(ts[|ts| - 1]) && !HasStored(t)
    ensures Latest(ts[|ts| - 1 := t], default) == Latest(ts, default)
  {
    assert ts[|ts| - 1 := t][..|ts| - 1] == ts[..|ts| - 1];
  }

  lemma {:induction false} OwnedLast<V>(ts: seq<Builder<V>>, b: nat)
    requires b < |ts| && Owns(ts[b]) && OwnerIsLast(ts)
    ensures b == |ts| - 1
  {
  }

  lemma {:induction false} NextCurrent<V>(cell: Cell<V>, step: CellStep<V>, default: V)
    requires CellInv(cell, default) && Current(cell, default)
    ensures Current(NextCell(cell, step), default)
  {
    var r := NextCell(cell, step);
    if OfCaller(step) {
      ElectedCurrent(cell, step, default);
    } else if r != cell {
      if Owns(cell.builders[step.b]) {
        OwnedLast(cell.builders, step.b);
        OwnerCurrent(cell, step, default);
      } else {
        LatestUpdate(cell.builders, step.b, r.builders[step.b], default);
      }
    }
  }

  lemma {:induction false} ElectedCurrent<V>(cell: Cell<V>, step: CellStep<V>, default: V)
    requires CellInv(cell, default) && Current(cell, default) && OfCaller(step)
    ensures Current(NextCell(cell, step), default)
  {
    var r := NextCell(cell, step);
    if |r.builders| > |cell.builders| {
      assert r.builders[..|cell.builders|] == cell.builders;
      forall b | 0 <= b < |cell.builders| ensures !Owns(r.builders[b]) {
        if Owns(cell.builders[b]) {
          OwnerCounted(cell.builders, b);
        }
      }
    }
  }

  lemma {:induction false} OwnerCurrent<V>(cell: Cell<V>, step: CellStep<V>, default: V)
    requires Current(cell, default) && !OfCaller(step) && NextCell(cell, step) != cell
    requires Owns(cell.builders[step.b]) && step.b == |cell.builders| - 1
    ensures Current(NextCell(cell, step), default)
  {
    var r := NextCell(cell, step);
    if step.Create? || step.Panic? {
      LatestSame(cell.builders, r.builders[step.b], default);
    }
  }

  /** In every interleaving: only the most recently elected task of a cache can own
      construction, and the stored value is what the most recently elected of the tasks
      that have stored something stored: results never overtake each other. */
  lemma {:induction false} StoredIsLatest<V>(w: World<V>, steps: seq<Step<V>>, default: V, c: nat)
    requires Initial(w, default) && c < |After(w, steps).cells|
    ensures Current(After(w, steps).cells[c], default)
    decreases |steps|
  {
    if |steps| > 0 {
      var most, step := steps[..|steps| - 1], steps[|steps| - 1];
      RunInv(w, most, default);
      StoredIsLatest(w, most, default, c);
      if step.OnCell? && step.c == c {
        NextCurrent(After(w, most).cells[c], step.step, default);
      }
    }
  }

  // ------------------------------------------------------------- what came from where

  /** Cache `c` before step `k` of a run. */
  ghost function Before<V>(w: World<V>, steps: seq<Step<V>>, k: nat, c: nat): Cell<V>
    requires k <= |steps| && c < |After(w, steps[..k]).cells|
  {
    After(w, steps[..k]).cells[c]
  }

  lemma {:induction false} SameCells<V>(w: World<V>, steps: seq<Step<V>>)
    ensures |After(w, steps).cells| == |w.cells|
    decreases |steps|
  {
    if |steps| > 0 {
      SameCells(w, steps[..|steps| - 1]);
    }
  }

  lemma {:induction false} Earlier<V>(steps: seq<Step<V>>, k: nat)
    requires k < |steps|
    ensures steps[..|steps| - 1][..k] == steps[..k]
  {
  }

  /** The last step of a run, on one cache: a step of that cache, or nothing. */
  lemma {:induction false} LastStep<V>(w: World<V>, steps: seq<Step<V>>, c: nat)
    requires |steps| > 0 && c < |w.cells|
    ensures c < |After(w, steps[..|steps| - 1]).cells| && c < |After(w, steps).cells|
    ensures
      var step, was, now := steps[|steps| - 1], After(w, steps[..|steps| - 1]).cells[c], After(w, steps).cells[c];
      now == if step.OnCell? && step.c == c then NextCell(was, step.step) else was
  {
    SameCells(w, steps);
    SameCells(w, steps[..|steps| - 1]);
  }

  ghost predicate Stores<V>(cell: Cell<V>, step: CellStep<V>) {
    step.Store? && step.b < |cell.builders| && cell.builders[step.b].Made?
  }

  lemma {:induction false} StepOnValue<V>(cell: Cell<V>, step: CellStep<V>)
    ensures NextCell(cell, step).value ==
      if Stores(cell, step) then Stamped(step.now, cell.builders[step.b].hash, cell.builders[step.b].result) else cell.value
  {
  }

  lemma {:induction false} StepOnCaller<V>(cell: Cell<V>, step: CellStep<V>, i: nat)
    requires i < |NextCell(cell, step).callers| && !NextCell(cell, step).callers[i].Entered?
    ensures i < |cell.callers|
    ensures NextCell(cell, step).callers[i].value ==
      if cell.callers[i].Entered? then cell.value else cell.callers[i].value
    ensures cell.callers[i].Entered? ==> step == Load(i)
  {
  }

  /** The hash of the key a task was started for, which it keeps until it panics. */
  ghost predicate IsFor<V>(t: Builder<V>, hash: u64) {
    match t
    case Creating(h) => h == hash
    case Made(h, _) => h == hash
    case Panicked => true
    case _ => t.out.hash == hash
  }

  lemma {:induction false} StaysFor<V>(cell: Cell<V>, step: CellStep<V>, b: nat, hash: u64)
    requires b < |cell.builders| && IsFor(cell.builders[b], hash)
    ensures b < |NextCell(cell, step).builders| && IsFor(NextCell(cell, step).builders[b], hash)
  {
  }

  lemma {:induction false} StepStarts<V>(cell: Cell<V>, step: CellStep<V>, b: nat)
    requires |cell.builders| <= b < |NextCell(cell, step).builders|
    ensures step.Elect? && !cell.flag && |cell.builders| == b
    ensures step.i < |cell.callers| && cell.callers[step.i].Electing?
    ensures NextCell(cell, step).builders[b] == Creating(cell.callers[step.i].hash)
  {
  }

  /** In every interleaving the stored value is the default or what a task stored, with
      the time of that step, the task's own result and the hash of the task's own key. */
  lemma {:induction false} ValueWasStored<V>(w: World<V>, steps: seq<Step<V>>, default: V, c: nat) returns (k: nat, b: nat, now: int)
    requires Initial(w, default) && c < |w.cells|
    ensures c < |After(w, steps).cells|
    ensures
      var value := After(w, steps).cells[c].value;
      value == Stamped(0, 0, default) || (
        && k < |steps| && steps[k] == OnCell(c, CellStep.Store(b, now))
        && c < |After(w, steps[..k]).cells| && b < |Before(w, steps, k, c).builders|
        && var t := Before(w, steps, k, c).builders[b];
           t.Made? && value == Stamped(now, t.hash, t.result))
    decreases |steps|
  {
    k, b, now := 0, 0, 0;
    if |steps| > 0 {
      var n := |steps| - 1;
      LastStep(w, steps, c);
      var was, step := After(w, steps[..n]).cells[c], steps[n];
      if step.OnCell? && step.c == c {
        StepOnValue(was, step.step);
      }
      if step.OnCell? && step.c == c && Stores(was, step.step) {
        k, b, now := n, step.step.b, step.step.now;
      } else {
        k, b, now := ValueWasStored(w, steps[..n], default, c);
        if k < n {
          Earlier(steps, k);
        }
      }
    }
  }

  /** In every interleaving what a call returns is what was stored when it looked. */
  lemma {:induction false} ReturnedWasStored<V>(w: World<V>, steps: seq<Step<V>>, default: V, c: nat, i: nat) returns (k: nat)
    requires Initial(w, default) && c < |w.cells| && c < |After(w, steps).cells|
    requires i < |After(w, steps).cells[c].callers| && !After(w, steps).cells[c].callers[i].Entered?
    ensures k < |steps| && steps[k] == OnCell(c, Load(i)) && c < |After(w, steps[..k]).cells|
    ensures After(w, steps).cells[c].callers[i].value == Before(w, steps, k, c).value
    decreases |steps|
  {
    k := 0;
    if |steps| > 0 {
      var n := |steps| - 1;
      LastStep(w, steps, c);
      var was, step := After(w, steps[..n]).cells[c], steps[n];
      if step.OnCell? && step.c == c {
        StepOnCaller(was, step.step, i);
      }
      if was.callers[i].Entered? {
        k := n;
      } else {
        k := ReturnedWasStored(w, steps[..n], default, c, i);
        Earlier(steps, k);
      }
    }
  }

  /** In every interleaving each task was started by the election of one call, for that
      call's key, while no task owned construction; and that call had found its value
      not to be good. So a call that finds its value good starts none. */
  lemma {:induction false} TaskWasElected<V>(w: World<V>, steps: seq<Step<V>>, default: V, c: nat, b: nat) returns (k: nat, i: nat)
    requires Initial(w, default) && c < |w.cells| && c < |After(w, steps).cells| && b < |After(w, steps).cells[c].builders|
    ensures k < |steps| && steps[k] == OnCell(c, Elect(i)) && c < |After(w, steps[..k]).cells|
    ensures
      var cell := Before(w, steps, k, c);
      && !cell.flag && |cell.builders| == b && i < |cell.callers| && cell.callers[i].Electing?
      && !StillGood(cell.callers[i].value, cell.callers[i].hash, cell.callers[i].checked)
      && IsFor(After(w, steps).cells[c].builders[b], cell.callers[i].hash)
    decreases |steps|
  {
    k, i := 0, 0;
    if |steps| > 0 {
      var n := |steps| - 1;
      LastStep(w, steps, c);
      var was, step := After(w, steps[..n]).cells[c], steps[n];
      if b < |was.builders| {
        k, i := TaskWasElected(w, steps[..n], default, c, b);
        Earlier(steps, k);
        if step.OnCell? && step.c == c {
          StaysFor(was, step.step, b, Before(w, steps, k, c).callers[i].hash);
        }
      } else {
        StepStarts(was, step.step, b);
        k, i := n, step.step.i;
        RunInv(w, steps[..n], default);
        assert CallerOk(was.callers[i], was.made, default);
      }
    }
  }

  // ------------------------------------------------------------- blocked or not

  ghost predicate SomePanicked<V>(ts: seq<Builder<V>>) {
    exists b {:trigger ts[b]} :: 0 <= b < |ts| && ts[b].Panicked?
  }

  /** Steps of the background tasks of cache `c`. */
  ghost predicate BuilderSteps<V>(steps: seq<Step<V>>, c: nat) {
    forall i {:trigger steps[i]} | 0 <= i < |steps| :: steps[i].OnCell? && steps[i].c == c && !OfCaller(steps[i].step)
  }

  lemma {:induction false} OneMore<V>(w: World<V>, steps: seq<Step<V>>, c: nat, s: CellStep<V>)
    requires c < |After(w, steps).cells|
    ensures
      var was, now := After(w, steps), After(w, steps + [OnCell(c, s)]);
      |now.cells| == |was.cells| && now.cells[c] == NextCell(was.cells[c], s)
  {
    assert (steps + [OnCell(c, s)])[..|steps|] == steps;
  }

  /** A task that has stored its result goes on to clear the flag. */
  lemma {:induction false} StoredClears<V>(w: World<V>, was: seq<Step<V>>, c: nat, b: nat) returns (steps: seq<Step<V>>)
    requires c < |After(w, was).cells| && b < |After(w, was).cells[c].builders|
    requires After(w, was).cells[c].builders[b].Stored? && BuilderSteps(was, c)
    ensures |steps| == |was| + 1 && BuilderSteps(steps, c)
    ensures c < |After(w, steps).cells| && !After(w, steps).cells[c].flag
  {
    OneMore(w, was, c, CellStep.Clear(b));
    steps := was + [OnCell(c, CellStep.Clear(b))];
  }

  lemma {:induction false} MadeClears<V>(w: World<V>, was: seq<Step<V>>, c: nat, b: nat) returns (steps: seq<Step<V>>)
    requires c < |After(w, was).cells| && b < |After(w, was).cells[c].builders|
    requires After(w, was).cells[c].builders[b].Made? && BuilderSteps(was, c)
    ensures |steps| == |was| + 2 && BuilderSteps(steps, c)
    ensures c < |After(w, steps).cells| && !After(w, steps).cells[c].flag
  {
    OneMore(w, was, c, CellStep.Store(b, 0));
    steps := StoredClears(w, was + [OnCell(c, CellStep.Store(b, 0))], c, b);
  }

  /** While no `create` of a cache has panicked, its owner clears the flag within three
      of its own steps. */
  lemma {:induction false} FlagClears<V>(w: World<V>, default: V, c: nat) returns (steps: seq<Step<V>>)
    requires Inv(w, default) && c < |w.cells| && w.cells[c].flag && !SomePanicked(w.cells[c].builders)
    ensures |steps| <= 3 && BuilderSteps(steps, c)
    ensures c < |After(w, steps).cells| && !After(w, steps).cells[c].flag
  {
    var b := SomeOwner(w.cells[c].builders);
    var t := w.cells[c].builders[b];
    assert !t.Panicked?;
    if t.Stored? {
      steps := StoredClears(w, [], c, b);
    } else if t.Made? {
      steps := MadeClears(w, [], c, b);
    } else {
      OneMore(w, [], c, CellStep.Create(b, default));
      steps := MadeClears(w, [] + [OnCell(c, CellStep.Create(b, default))], c, b);
    }
  }

  ghost predicate CanClear<V(!new)>(w: World<V>, c: nat) {
    exists steps: seq<Step<V>> {:trigger After(w, steps)} :: c < |After(w, steps).cells| && !After(w, steps).cells[c].flag
  }

  /** In every reachable state of every cache: some continuation clears the flag, so
      that another value can be built, if and only if no `create` has panicked. */
  lemma {:induction false} BlockedIffPanicked<V(!new)>(w: World<V>, steps: seq<Step<V>>, default: V, c: nat)
    requires Initial(w, default) && c < |After(w, steps).cells|
    ensures CanClear(After(w, steps), c) <==> !SomePanicked(After(w, steps).cells[c].builders)
  {
    var now := After(w, steps);
    RunInv(w, steps, default);
    if SomePanicked(now.cells[c].builders) {
      var b :| 0 <= b < |now.cells[c].builders| && now.cells[c].builders[b].Panicked?;
      forall more: seq<Step<V>> ensures c < |After(now, more).cells| && After(now, more).cells[c].flag {
        PanicForever(now, more, default, c, b);
      }
    } else if now.cells[c].flag {
      var more := FlagClears(now, default, c);
      assert !After(now, more).cells[c].flag;
    } else {
      assert After(now, []) == now;
    }
  }

  /** A panic can happen on any cache at its first call, unless the hash of the key is
      that of the default and the default still counts as young. */
  lemma {:induction false} PanicReached<V>(w: World<V>, default: V, c: nat, hash: u64, now: int) returns (run: seq<Step<V>>)
    requires Initial(w, default) && c < |w.cells| && (hash != 0 || now > MAX_LIFETIME)
    ensures c < |After(w, run).cells| && SomePanicked(After(w, run).cells[c].builders)
  {
    run := Elected(w, default, c, hash, now);
    OneMore(w, run, c, Panic(0));
    run := run + [OnCell(c, Panic(0))];
    assert After(w, run).cells[c].builders[0].Panicked?;
  }

  lemma {:induction false} Elected<V>(w: World<V>, default: V, c: nat, hash: u64, now: int) returns (run: seq<Step<V>>)
    requires Initial(w, default) && c < |w.cells| && (hash != 0 || now > MAX_LIFETIME)
    ensures c < |After(w, run).cells|
    ensures |After(w, run).cells[c].builders| == 1 && After(w, run).cells[c].builders[0] == Creating(hash)
  {
    var first: Caller<V> := Loaded(hash, Stamped(0, 0, default));
    run := [];
    OneMore(w, run, c, Call(hash));
    run := run + [OnCell(c, Call(hash))];
    OneMore(w, run, c, Load(0));
    run := run + [OnCell(c, Load(0))];
    assert After(w, run).cells[c].callers[0] == first;
    OneMore(w, run, c, CellStep.Check(0, now));
    run := run + [OnCell(c, CellStep.Check(0, now))];
    OneMore(w, run, c, Elect(0));
    run := run + [OnCell(c, Elect(0))];
  }
}
