/** The atomic steps of `get_or_create`, of its background task and of `any_caches`, as
    they update a cache in place. */
module CachedSteps {
  import opened Wrappers
  import opened Bytes
  import opened Cached

  /** `CachedInner`, with the position of every call and task in its code. */
  class CachedInner<V> {
    var beingConstructed: bool
    var value: Stamped<V>
    var callers: seq<Caller<V>>
    var builders: seq<Builder<V>>
    ghost var made: seq<(u64, V)>
    ghost const default: V

    ghost function Now(): Cell<V>
      reads this
    {
      Cell(beingConstructed, value, callers, builders, made)
    }

    ghost predicate Valid()
      reads this
    {
      CellInv(Now(), default)
    }

    constructor (default: V)
      ensures Valid() && this.default == default
      ensures Now() == Cell(false, Stamped(0, 0, default), [], [], [])
    {
      beingConstructed, value := false, Stamped(0, 0, default);
      callers, builders, made := [], [], [];
      this.default := default;
    }

    /** `value.load_full()` */
    method Load(i: nat)
      requires Valid() && i < |callers| && callers[i].Entered?
      modifies this`callers
      ensures Valid() && Now() == NextCell(old(Now()), CellStep.Load(i))
    {
      NextCellInv(Now(), CellStep.Load(i), default);
      callers := callers[i := Loaded(callers[i].hash, value)];
    }

    /** Return the value if it is still good. */
    method Check(i: nat, now: int)
      requires Valid() && i < |callers| && callers[i].Loaded?
      modifies this`callers
      ensures Valid() && Now() == NextCell(old(Now()), CellStep.Check(i, now))
    {
      NextCellInv(Now(), CellStep.Check(i, now), default);
      var c := callers[i];
      var age := now - c.value.created;
      if MAX_LIFETIME >= age && c.value.hash == c.hash {
        callers := callers[i := Returned(c.hash, c.value, now, true)];
      } else {
        callers := callers[i := Electing(c.hash, c.value, now)];
      }
    }

    /** `being_constructed.compare_exchange(false, true)`, and spawning the task. */
    method Elect(i: nat)
      requires Valid() && i < |callers| && callers[i].Electing?
      modifies this`callers, this`beingConstructed, this`builders
      ensures Valid() && Now() == NextCell(old(Now()), CellStep.Elect(i))
    {
      NextCellInv(Now(), CellStep.Elect(i), default);
      var c := callers[i];
      callers := callers[i := Returned(c.hash, c.value, c.checked, false)];
      if !beingConstructed {
        beingConstructed := true;
        builders := builders + [Creating(c.hash)];
      }
    }

    /** `create()` returns. */
    method Create(b: nat, result: V)
      requires Valid() && b < |builders| && builders[b].Creating?
      modifies this`builders, this`made
      ensures Valid() && Now() == NextCell(old(Now()), CellStep.Create(b, result))
    {
      NextCellInv(Now(), CellStep.Create(b, result), default);
      made := made + [(builders[b].hash, result)];
      builders := builders[b := Made(builders[b].hash, result)];
    }

    /** `value.store(...)` */
    method Store(b: nat, now: int)
      requires Valid() && b < |builders| && builders[b].Made?
      modifies this`builders, this`value
      ensures Valid() && Now() == NextCell(old(Now()), CellStep.Store(b, now))
    {
      NextCellInv(Now(), CellStep.Store(b, now), default);
      value := Stamped(now, builders[b].hash, builders[b].result);
      builders := builders[b := Stored(value)];
    }

    /** `being_constructed.store(false)` */
    method Clear(b: nat)
      requires Valid() && b < |builders| && builders[b].Stored?
      modifies this`builders, this`beingConstructed
      ensures Valid() && Now() == NextCell(old(Now()), CellStep.Clear(b))
    {
      NextCellInv(Now(), CellStep.Clear(b), default);
      beingConstructed := false;
      builders := builders[b := Cleared(builders[b].out)];
    }

    /** `UPDATE_CTR.fetch_add(1)` */
    method Bump(b: nat, counter: UpdateCounter)
      requires Valid() && counter.Valid() && b < |builders| && builders[b].Cleared?
      modifies this`builders, counter
      ensures Valid() && Now() == NextCell(old(Now()), CellStep.Bump(b))
      ensures counter.Valid() && counter.bumps == old(counter.bumps) + 1
    {
      NextCellInv(Now(), CellStep.Bump(b), default);
      builders := builders[b := Done(builders[b].out)];
      counter.FetchAdd();
    }
  }

  /** `UPDATE_CTR`, shared by all caches, and how many builds have bumped it. */
  class UpdateCounter {
    var ctr: u64
    ghost var bumps: nat

    ghost predicate Valid()
      reads this
    {
      ctr == (1 + bumps) % WORD
    }

    constructor ()
      ensures Valid() && bumps == 0
    {
      ctr, bumps := 1, 0;
    }

    /** Adding one wraps around at the counter's range. */
    method FetchAdd()
      requires Valid()
      modifies this
      ensures Valid() && bumps == old(bumps) + 1
    {
      CtrNext(bumps);
      ctr := if ctr + 1 < WORD then ctr + 1 else 0;
      bumps := bumps + 1;
    }
  }

  lemma {:induction false} CtrNext(bumps: nat)
    ensures
      var ctr := (1 + bumps) % WORD;
      (2 + bumps) % WORD == if ctr + 1 < WORD then ctr + 1 else 0
  {
  }

  /** `seen` is how many builds had bumped the counter at the last call, if any. */
  class UpdateWatcher {
    var prevCtr: u64
    ghost var seen: Option<nat>

    ghost predicate Valid(bumps: nat)
      reads this
    {
      WatcherInv(Watcher(prevCtr, seen), bumps)
    }

    constructor ()
      ensures prevCtr == 0 && seen == None && forall bumps: nat :: Valid(bumps)
    {
      prevCtr, seen := 0, None;
    }

    /** `any_caches`: true if and only if builds completed since the last call, unless
        their number is a multiple of the counter's range; a first call also counts the
        counter's start. */
    method AnyCaches(counter: UpdateCounter) returns (any: bool)
      requires counter.Valid() && Valid(counter.bumps)
      modifies this
      ensures Valid(counter.bumps) && seen == Some(counter.bumps)
      ensures
        match old(seen)
        case None => any <==> (1 + counter.bumps) % 0x1_0000_0000_0000_0000 != 0
        case Some(before) =>
          before <= counter.bumps && (any <==> (counter.bumps - before) % 0x1_0000_0000_0000_0000 != 0)
    {
      CounterTells(counter.ctr, counter.bumps, Watcher(prevCtr, seen));
      var oldCtr := prevCtr;
      prevCtr := counter.ctr;
      seen := Some(counter.bumps);
      any := prevCtr != oldCtr;
    }
  }
}
