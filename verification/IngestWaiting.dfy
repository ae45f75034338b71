/** How long a received file waits for its fetch: the one that came last goes first. */
module IngestWaiting {
  import opened Wrappers
  import opened Bytes
  import opened IngestController

  ghost predicate IsCompletion(e: Event) {
    e.Loop? && e.update.Completed?
  }

  ghost function Completions(es: seq<Event>): nat
    decreases |es|
  {
    if |es| == 0 then 0 else Completions(es[..|es| - 1]) + if IsCompletion(es[|es| - 1]) then 1 else 0
  }

  ghost predicate NoReceipts(es: seq<Event>) {
    forall i {:trigger es[i]} | 0 <= i < |es| :: es[i].Loop? ==> es[i].update.Completed?
  }

  // ------------------------------------------------------ without new receipts

  lemma {:induction false} WithoutLength(ids: seq<FileId>, id: FileId)
    requires id in ids
    ensures |Without(ids, id)| == |ids| - 1
  {
    assert IndexOf(ids, id) < |ids|;
  }

  lemma {:induction false} FullPool(s: State)
    requires s.Tasks() == SYMB_MAX_PAR
    ensures Spawned(s, false) == s
  {
  }

  /** With room for one, the file that came last is started. */
  lemma {:induction false} SpawnsLast(h: State)
    requires |h.pending| > 0 && h.Tasks() == SYMB_MAX_PAR - 1
    ensures Spawned(h, false) == Started(h.(pending := h.pending[..|h.pending| - 1]), h.pending[|h.pending| - 1].0)
  {
    FullPool(Started(h.(pending := h.pending[..|h.pending| - 1]), h.pending[|h.pending| - 1].0));
  }

  /** A completion makes room for one. */
  lemma {:induction false} CompletionHandled(s: State, u: Update)
    requires Inv(s) && Enabled(s, u) && u.Completed? && u.id in s.exes
    ensures Handled(s, u).Some?
    ensures Handled(s, u).value.pending == s.pending && Handled(s, u).value.Tasks() == s.Tasks() - 1
  {
    WithoutLength(s.running, u.id);
  }

  /** Each completion starts the file that came last, and only that one. */
  lemma {:induction false} CompletionStarts(s: State, u: Update)
    requires Safe(s) && Enabled(s, u) && u.Completed? && u.id in s.exes
    ensures Round(s, u, false).Some?
    ensures
      var r, h, n := Round(s, u, false).value, Handled(s, u).value, |s.pending|;
      r == if n == 0 then h else Started(h.(pending := s.pending[..n - 1]), s.pending[n - 1].0)
  {
    RoundPanics(s, u, false);
    CompletionHandled(s, u);
    var h := Handled(s, u).value;
    if |h.pending| > 0 {
      SpawnsLast(h);
    } else {
      assert Spawned(h, false) == h;
    }
  }

  lemma {:induction false} NextTakesLast(s: State, e: Event)
    requires Safe(s) && (e.Loop? ==> IsCompletion(e) && Enabled(s, e.update)) && Next(s, e, false).Some?
    ensures
      var r, n := Next(s, e, false).value, |s.pending|;
      if IsCompletion(e) && n > 0 then r.pending == s.pending[..n - 1] && s.pending[n - 1].0 in r.active
      else r.pending == s.pending
  {
    NextIsSafe(s, e, false);
    if e.Loop? {
      CompletionStarts(s, e.update);
      CompletionHandled(s, e.update);
    }
  }

  /** How many files still wait after `k` completions. */
  ghost function Left(n: nat, k: nat): nat {
    if k <= n then n - k else 0
  }

  /** Without new receipts, and whatever happens to the table, each completion takes one
      file off the end: the file at position i waits for exactly |pending| - i of them. */
  lemma {:induction false} WaitsInOrder(s: State, es: seq<Event>)
    requires Safe(s) && IsRun(s, es, false) && NoReceipts(es)
    ensures
      var r := After(s, es, false);
      r.Some? ==> Safe(r.value) && r.value.pending == s.pending[..Left(|s.pending|, Completions(es))]
    decreases |es|
  {
    if |es| > 0 {
      var n := |es| - 1;
      NoReceiptsBefore(es);
      WaitsInOrder(s, es[..n]);
      var m := After(s, es[..n], false);
      if m.Some? {
        NextIsSafe(m.value, es[n], false);
        if Next(m.value, es[n], false).Some? {
          NextTakesLast(m.value, es[n]);
        }
      }
    }
  }

  lemma {:induction false} NoReceiptsBefore(es: seq<Event>)
    requires |es| > 0 && NoReceipts(es)
    ensures NoReceipts(es[..|es| - 1]) && (es[|es| - 1].Loop? ==> IsCompletion(es[|es| - 1]))
  {
    forall i | 0 <= i < |es| - 1 ensures es[..|es| - 1][i] == es[i] {
    }
  }

  /** And with the last of these its fetch starts. */
  lemma {:induction false} StartsInOrder(s: State, es: seq<Event>, i: nat)
    requires Safe(s) && IsRun(s, es, false) && NoReceipts(es) && i < |s.pending|
    requires |es| > 0 && IsCompletion(es[|es| - 1]) && Completions(es) == |s.pending| - i
    ensures After(s, es, false).Some? ==> s.pending[i].0 in After(s, es, false).value.active
  {
    var n := |es| - 1;
    NoReceiptsBefore(es);
    WaitsInOrder(s, es[..n]);
    var m := After(s, es[..n], false);
    if m.Some? && Next(m.value, es[n], false).Some? {
      NextTakesLast(m.value, es[n]);
      assert m.value.pending[i] == s.pending[i];
    }
  }

  // --------------------------------------------------------- with steady arrivals

  /** `y` is being fetched, `z` is neither fetched nor waiting, and both have rows. */
  ghost predicate Overtaking(s: State, y: FileId, z: FileId) {
    && Safe(s) && |s.pending| > 0 && y in s.running && y in s.exes && z in s.exes
    && z !in s.active && z !in Firsts(s.pending)
  }

  /** A file received while the pool is full is the next to be fetched, and all others
      go on waiting. */
  lemma {:induction false} Overtakes(s: State, y: FileId, z: FileId, a: Update, b: Update)
    requires Overtaking(s, y, z) && a.Received? && a.id == z && b.Completed? && b.id == y
    ensures Enabled(s, a) && Round(s, a, false) == Some(s.(pending := s.pending + [(z, a.meta)]))
    ensures
      var m := s.(pending := s.pending + [(z, a.meta)]);
      && Enabled(m, b) && Round(m, b, false).Some?
      && Round(m, b, false).value.pending == s.pending && Overtaking(Round(m, b, false).value, z, y)
  {
    var m := s.(pending := s.pending + [(z, a.meta)]);
    RoundPanics(s, a, false);
    ActiveIsRunning(s);
    assert Upsert(s.pending, z, a.meta) == m.pending;
    FullPool(m);
    RoundPanics(m, b, false);
    CompletionStarts(m, b);
    assert m.pending[..|s.pending|] == s.pending;
    LeftIsOut(s, m, y, b);
  }

  lemma {:induction false} LeftIsOut(s: State, m: State, y: FileId, b: Update)
    requires Inv(s) && Inv(m) && y in s.running && y in s.exes && m.active == s.active && m.running == s.running
    requires m.exes == s.exes && b.Completed? && b.id == y
    ensures y !in Handled(m, b).value.active && y !in Firsts(s.pending)
  {
    assert y in s.active;
    forall i | 0 <= i < |s.pending| ensures Firsts(s.pending)[i] != y {
      assert s.pending[i].0 !in s.active;
    }
  }

  /** At this point of the run the files that waited in `s` still do. */
  ghost predicate StillWaiting(pending: Waiting, s: State, es: seq<Event>, k: nat)
    requires k <= |es|
  {
    After(s, es[..k], false).Some? && pending <= After(s, es[..k], false).value.pending
  }

  lemma {:induction false} OneCompletion(es: seq<Event>, e: Event)
    ensures Completions(es + [e]) == Completions(es) + if IsCompletion(e) then 1 else 0
  {
    assert (es + [e])[..|es|] == es;
  }

  /** A run in which one more file arrives and one more fetch completes. */
  lemma {:induction false} OvertakesOnce(s: State, was: seq<Event>, y: FileId, z: FileId, meta: ExecutableMeta, outcome: Outcome, now: u64)
    returns (mid: seq<Event>, es: seq<Event>)
    requires IsRun(s, was, false) && After(s, was, false).Some? && Overtaking(After(s, was, false).value, y, z)
    ensures mid == was + [Loop(Received(z, meta))] && es == mid + [Loop(Completed(y, outcome, now))]
    ensures IsRun(s, es, false) && Completions(es) == Completions(was) + 1
    ensures After(s, es, false).Some? && Overtaking(After(s, es, false).value, z, y)
    ensures
      var m, pending := After(s, mid, false), After(s, was, false).value.pending;
      m.Some? && pending <= m.value.pending && After(s, es, false).value.pending == pending
  {
    var a, b := Received(z, meta), Completed(y, outcome, now);
    mid := was + [Loop(a)];
    es := mid + [Loop(b)];
    OneMore(s, was, Loop(a), false);
    OneMore(s, mid, Loop(b), false);
    OneCompletion(was, Loop(a));
    OneCompletion(mid, Loop(b));
    Overtakes(After(s, was, false).value, y, z, a, b);
  }

  /** With steady arrivals waiting files never start: for every number of completions
      there is a run in which all of them keep waiting throughout. */
  lemma {:induction false} Starves(s: State, was: seq<Event>, y: FileId, z: FileId, meta: ExecutableMeta, outcome: Outcome, now: u64, n: nat)
    returns (es: seq<Event>)
    requires IsRun(s, was, false) && After(s, was, false).Some? && Overtaking(After(s, was, false).value, y, z)
    ensures was <= es && IsRun(s, es, false) && Completions(es) == Completions(was) + n
    ensures forall k {:trigger es[..k]} | |was| <= k <= |es| :: StillWaiting(After(s, was, false).value.pending, s, es, k)
    decreases n
  {
    if n == 0 {
      es := was;
      assert was[..|was|] == was;
    } else {
      var mid, next := OvertakesOnce(s, was, y, z, meta, outcome, now);
      es := Starves(s, next, z, y, meta, outcome, now, n - 1);
      forall k | |was| <= k <= |es| ensures StillWaiting(After(s, was, false).value.pending, s, es, k) {
        if k >= |next| {
          assert StillWaiting(After(s, next, false).value.pending, s, es, k);
        } else {
          WaitingBetween(s, was, mid, es, k);
        }
      }
    }
  }

  lemma {:induction false} WaitingBetween(s: State, was: seq<Event>, mid: seq<Event>, es: seq<Event>, k: nat)
    requires was <= mid <= es && |mid| == |was| + 1 && |was| <= k <= |mid|
    requires After(s, was, false).Some? && After(s, mid, false).Some?
    requires After(s, was, false).value.pending <= After(s, mid, false).value.pending
    ensures StillWaiting(After(s, was, false).value.pending, s, es, k)
  {
    assert es[..k] == if k == |was| then was else mid;
  }

  // ------------------------------------------------------ such states are reached

  lemma {:induction false} FillsOne(s: State, es: seq<Event>, id: FileId, meta: ExecutableMeta)
    requires IsRun(s, es, false) && After(s, es, false).Some?
    requires
      var r := After(s, es, false).value;
      Safe(r) && |r.pending| == 0 && r.Tasks() < SYMB_MAX_PAR && id !in r.running
    ensures
      var r, longer := After(s, es, false).value, es + [Loop(Received(id, meta))];
      && IsRun(s, longer, false) && Completions(longer) == Completions(es)
      && After(s, longer, false) == Some(State([], r.active + {id}, r.running + [id], r.exes))
  {
    ActiveIsRunning(After(s, es, false).value);
    ReceivedStarts(After(s, es, false).value, id, meta);
    OneMore(s, es, Loop(Received(id, meta)), false);
    OneCompletion(es, Loop(Received(id, meta)));
  }

  /** Files received one after the other, as many as the pool has room for, are all
      being fetched. */
  lemma {:induction false} Fills(exes: map<FileId, ExecutableMeta>, ids: seq<FileId>, meta: ExecutableMeta) returns (es: seq<Event>)
    requires NoRepeats(ids) && |ids| < SYMB_MAX_PAR
    ensures IsRun(Start(exes), es, false) && Completions(es) == 0 && After(Start(exes), es, false).Some?
    ensures
      var r := After(Start(exes), es, false).value;
      Safe(r) && |r.pending| == 0 && r.running == ids && r.exes == exes
    decreases |ids|
  {
    if |ids| == 0 {
      es := [];
      StartIsSafe(exes);
    } else {
      var n := |ids| - 1;
      var most := Fills(exes, ids[..n], meta);
      assert ids[n] !in ids[..n] && ids[..n] + [ids[n]] == ids;
      FillsOne(Start(exes), most, ids[n], meta);
      es := most + [Loop(Received(ids[n], meta))];
      RunKeepsSafe(exes, es, false);
    }
  }

  /** With a full pool the next file received waits. */
  lemma {:induction false} FullThenOne(exes: map<FileId, ExecutableMeta>, ids: seq<FileId>, x: FileId, meta: ExecutableMeta) returns (es: seq<Event>)
    requires NoRepeats(ids) && |ids| == SYMB_MAX_PAR - 1 && x !in ids
    ensures IsRun(Start(exes), es, false) && Completions(es) == 0 && After(Start(exes), es, false).Some?
    ensures
      var r := After(Start(exes), es, false).value;
      Safe(r) && r.pending == [(x, meta)] && r.running == ids && r.exes == exes
  {
    var was := Fills(exes, ids, meta);
    ReceivedWaits(After(Start(exes), was, false).value, x, meta);
    OneMore(Start(exes), was, Loop(Received(x, meta)), false);
    OneCompletion(was, Loop(Received(x, meta)));
    es := was + [Loop(Received(x, meta))];
    RunKeepsSafe(exes, es, false);
  }

  /** From the start: 15 files are fetched, `x` is received and waits, and then for every
      number of completions there is a run that keeps it waiting throughout. */
  lemma {:induction false} StarvesFromStart(exes: map<FileId, ExecutableMeta>, ids: seq<FileId>, x: FileId, z: FileId,
                                            meta: ExecutableMeta, outcome: Outcome, now: u64, n: nat)
    returns (was: seq<Event>, es: seq<Event>)
    requires NoRepeats(ids) && |ids| == SYMB_MAX_PAR - 1 && x !in ids && z !in ids && x != z
    requires ids[0] in exes && z in exes
    ensures was <= es && IsRun(Start(exes), es, false) && Completions(es) == n
    ensures forall k {:trigger es[..k]} | |was| <= k <= |es| :: StillWaiting([(x, meta)], Start(exes), es, k)
  {
    was := FullThenOne(exes, ids, x, meta);
    var r := After(Start(exes), was, false).value;
    assert ids[0] in r.running && Firsts(r.pending) == [x];
    es := Starves(Start(exes), was, ids[0], z, meta, outcome, now, n);
    forall k | |was| <= k <= |es| ensures StillWaiting([(x, meta)], Start(exes), es, k) {
      assert StillWaiting(r.pending, Start(exes), es, k);
    }
  }

  lemma {:induction false} ReceivedWaits(s: State, x: FileId, meta: ExecutableMeta)
    requires Safe(s) && |s.pending| == 0 && s.Tasks() == SYMB_MAX_PAR && x !in s.active
    ensures Round(s, Received(x, meta), false) == Some(s.(pending := [(x, meta)]))
  {
    ActiveIsRunning(s);
    assert Upsert(s.pending, x, meta) == [(x, meta)];
    FullPool(s.(pending := [(x, meta)]));
  }
}
