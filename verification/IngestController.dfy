/** `ingest_task_controller`: which symbol fetches are waiting and which are running,
    over any sequence of updates, completions and changes of the table beside it. */
module IngestController {
  import opened Wrappers
  import opened Bytes

  type FileId = u128

  const SYMB_MAX_PAR := 16

  datatype SymbStatus =
    | NotAttempted
    | TempError(lastAttempt: u64)
    | NotPresentGlobally
    | Complete(numSymbols: u64)

  datatype ExecutableMeta = ExecutableMeta(fileName: Option<string>, status: SymbStatus)

  /** What a fetch returns: a status, or an error. */
  datatype Outcome = Fetched(status: SymbStatus) | Failed

  datatype Update =
    | Received(id: FileId, meta: ExecutableMeta)
    | Completed(id: FileId, outcome: Outcome, now: u64)

  /** What happens: the loop takes an update, or others change the table of executables.
      The collector adds rows, and flushing the event data removes all of them. */
  datatype Event =
    | Loop(update: Update)
    | TableSet(exes: map<FileId, ExecutableMeta>)

  type Waiting = seq<(FileId, ExecutableMeta)>

  /** `running` are the tasks in the set other than the idle one; `exes` is the table
      of executables. */
  datatype State = State(
    pending: Waiting, active: set<FileId>, running: seq<FileId>, exes: map<FileId, ExecutableMeta>)
  {
    /** `tasks.len()`, with the idle task that never completes. */
    function Tasks(): nat {
      1 + |running|
    }
  }

  // ------------------------------------------------------------------- spec

  /** Nothing waits twice or while it runs; there is exactly one task for each active
      file, and the idle task leaves room for 15 of them. */
  ghost predicate Inv(s: State) {
    && NoRepeats(Firsts(s.pending)) && NoRepeats(s.running)
    && (forall id {:trigger id in s.active} :: id in s.active <==> id in s.running)
    && (forall i {:trigger s.pending[i]} | 0 <= i < |s.pending| :: s.pending[i].0 !in s.active)
    && s.Tasks() <= SYMB_MAX_PAR
  }

  /** Between rounds, files wait only while the pool is full. */
  ghost predicate Settled(s: State) {
    |s.pending| == 0 || s.Tasks() == SYMB_MAX_PAR
  }

  ghost function Start(exes: map<FileId, ExecutableMeta>): State {
    State([], {}, [], exes)
  }

  /** Updates the loop can see: any file may be received, also one whose row is gone by
      then, and only running fetches complete. */
  ghost predicate Enabled(s: State, u: Update) {
    u.Completed? ==> u.id in s.running
  }

  /** `IndexMap::insert`: in place if the key is there, else at the end. */
  function Upsert(pending: Waiting, id: FileId, meta: ExecutableMeta): Waiting {
    var i := IndexOf(Firsts(pending), id);
    if i < |pending| then pending[i := (id, meta)] else pending + [(id, meta)]
  }

  function Without(ids: seq<FileId>, id: FileId): seq<FileId> {
    var i := IndexOf(ids, id);
    if i < |ids| then ids[..i] + ids[i + 1..] else ids
  }

  function StatusAfter(u: Outcome, now: u64): SymbStatus {
    match u
    case Fetched(status) => status
    case Failed => TempError(now)
  }

  /** The `select!`. Nothing if a completed file is not in the table any more, where the
      lookup's `unwrap` panics. */
  ghost function Handled(s: State, u: Update): Option<State> {
    match u
    case Received(id, meta) =>
      Some(if id in s.active then s else s.(pending := Upsert(s.pending, id, meta)))
    case Completed(id, outcome, now) =>
      if id !in s.exes then None
      else Some(State(s.pending, s.active - {id}, Without(s.running, id),
                      s.exes[id := s.exes[id].(status := StatusAfter(outcome, now))]))
  }

  /** The spawn loop: the file that came last goes first. */
  ghost function Spawned(s: State, noEndpoint: bool): State
    decreases |s.pending|
  {
    if |s.pending| == 0 || s.Tasks() >= SYMB_MAX_PAR then s
    else
      var n := |s.pending| - 1;
      var popped := s.(pending := s.pending[..n]);
      Spawned(if noEndpoint then popped else Started(popped, s.pending[n].0), noEndpoint)
  }

  ghost function Started(s: State, id: FileId): State {
    s.(active := s.active + {id}, running := s.running + [id])
  }

  /** One turn of the loop; nothing if it panics, at the lookup or at an assertion. */
  ghost function Round(s: State, u: Update, noEndpoint: bool): Option<State> {
    match Handled(s, u)
    case None => None
    case Some(h) =>
      if |h.active| > SYMB_MAX_PAR || h.Tasks() > SYMB_MAX_PAR then None else Some(Spawned(h, noEndpoint))
  }

  /** What an update writes: a completion gives the row of its file the status that was
      fetched, or the time of the failed attempt, and keeps its name; all other rows stay,
      and a receipt writes nothing. */
  ghost predicate Written(was: map<FileId, ExecutableMeta>, u: Update, exes: map<FileId, ExecutableMeta>) {
    match u
    case Received(_, _) => exes == was
    case Completed(id, outcome, now) =>
      && exes.Keys == was.Keys && id in was
      && exes[id].fileName == was[id].fileName
      && exes[id].status == (match outcome case Fetched(status) => status case Failed => TempError(now))
      && forall x {:trigger exes[x]} | x in was && x != id :: exes[x] == was[x]
  }

  // ------------------------------------------------------------------- code

  class Controller {
    const noEndpoint: bool
    var pending: Waiting
    var active: set<FileId>
    var running: seq<FileId>
    var exes: map<FileId, ExecutableMeta>

    ghost function Now(): State
      reads this
    {
      State(pending, active, running, exes)
    }

    constructor (noEndpoint: bool, exes: map<FileId, ExecutableMeta>)
      ensures this.noEndpoint == noEndpoint
      ensures Now() == Start(exes) && Inv(Now()) && Settled(Now())
    {
      this.noEndpoint, this.exes := noEndpoint, exes;
      pending, active, running := [], {}, [];
    }

    /** One turn of the loop, unless it panics: which it does at the lookup of a
        completed file whose row is gone, and nowhere else. Both assertions hold. */
    method Turn(u: Update) returns (ok: bool)
      requires Inv(Now()) && Enabled(Now(), u)
      modifies this
      ensures Round(old(Now()), u, noEndpoint) == if ok then Some(Now()) else None
      ensures !ok <==> u.Completed? && u.id !in old(exes)
      ensures ok ==> Inv(Now()) && Settled(Now())
      ensures !ok ==> Now() == old(Now())
      ensures ok ==> Written(old(exes), u, exes)
    {
      RoundPanics(Now(), u, noEndpoint);
      RoundWrites(Now(), u, noEndpoint);
      ok := Select(u);
      if !ok {
        return;
      }
      ActiveIsRunning(Now());
      assert |active| <= SYMB_MAX_PAR;
      assert 1 + |running| <= SYMB_MAX_PAR;
      SpawnedInv(Now(), noEndpoint);
      SpawnTasks();
    }

    method Select(u: Update) returns (ok: bool)
      requires Inv(Now()) && Enabled(Now(), u)
      modifies this
      ensures Handled(old(Now()), u) == if ok then Some(Now()) else None
      ensures ok ==> Inv(Now())
      ensures !ok ==> Now() == old(Now())
      ensures ok ==> Written(old(exes), u, exes)
    {
      HandledInv(Now(), u);
      ok := true;
      match u
      case Received(id, meta) =>
        if id !in active {
          pending := Upsert(pending, id, meta);
        }
      case Completed(id, outcome, now) =>
        if id !in exes {
          return false;
        }
        var exe := exes[id];
        exes := exes[id := exe.(status := StatusAfter(outcome, now))];
        running := Without(running, id);
        active := active - {id};
    }

    /** Others change the table of executables. */
    method SetTable(exes: map<FileId, ExecutableMeta>)
      requires Inv(Now())
      modifies this`exes
      ensures Inv(Now()) && Now() == old(Now()).(exes := exes)
    {
      this.exes := exes;
    }

    method SpawnTasks()
      modifies this
      ensures Now() == Spawned(old(Now()), noEndpoint)
    {
      while |pending| > 0 && 1 + |running| < SYMB_MAX_PAR
        invariant Spawned(Now(), noEndpoint) == Spawned(old(Now()), noEndpoint)
        decreases |pending|
      {
        var id := pending[|pending| - 1].0;
        pending := pending[..|pending| - 1];
        if !noEndpoint {
          running := running + [id];
          active := active + {id};
        }
      }
    }
  }

  // ------------------------------------------------------------------ proofs

  lemma {:induction false} ActiveIsRunning(s: State)
    requires Inv(s)
    ensures |s.active| == |s.running|
  {
    DistinctCount(s.running, s.active);
  }

  lemma {:induction false} DistinctCount(ids: seq<FileId>, all: set<FileId>)
    requires NoRepeats(ids) && forall id {:trigger id in all} :: id in all <==> id in ids
    ensures |all| == |ids|
    decreases |ids|
  {
    if |ids| == 0 {
      assert all == {};
    } else {
      var n := |ids| - 1;
      forall id ensures id in all - {ids[n]} <==> id in ids[..n] {
        if id in ids[..n] {
          var i :| 0 <= i < n && ids[..n][i] == id;
          assert ids[i] == id;
        }
      }
      DistinctCount(ids[..n], all - {ids[n]});
    }
  }

  lemma {:induction false} WithoutMembers(ids: seq<FileId>, id: FileId)
    requires NoRepeats(ids)
    ensures NoRepeats(Without(ids, id)) && |Without(ids, id)| <= |ids|
    ensures forall x {:trigger x in Without(ids, id)} :: x in Without(ids, id) <==> x in ids && x != id
  {
    var i := IndexOf(ids, id);
    if i < |ids| {
      var r := Without(ids, id);
      assert forall k | 0 <= k < |r| :: r[k] == ids[if k < i then k else k + 1];
      forall x ensures x in r <==> x in ids && x != id {
        if x in ids && x != id {
          var k :| 0 <= k < |ids| && ids[k] == x;
          assert r[if k < i then k else k - 1] == x;
        }
      }
    }
  }

  lemma {:induction false} UpsertMembers(pending: Waiting, id: FileId, meta: ExecutableMeta)
    requires NoRepeats(Firsts(pending))
    ensures NoRepeats(Firsts(Upsert(pending, id, meta)))
    ensures
      var r := Upsert(pending, id, meta);
      && (id, meta) in r && |pending| <= |r|
      && (forall k {:trigger r[k]} | 0 <= k < |r| :: r[k] == (id, meta) || r[k] in pending)
      && (forall k {:trigger pending[k]} | 0 <= k < |pending| :: pending[k].0 == id || pending[k] in r)
  {
    var i := IndexOf(Firsts(pending), id);
    var r := Upsert(pending, id, meta);
    assert r[i] == (id, meta);
    forall k | 0 <= k < |pending| ensures pending[k].0 == id || pending[k] in r {
      if k != i {
        assert r[k] == pending[k];
      }
    }
  }

  lemma {:induction false} HandledInv(s: State, u: Update)
    requires Inv(s) && Enabled(s, u)
    ensures Handled(s, u).Some? ==> Inv(Handled(s, u).value)
  {
    match u
    case Received(id, meta) =>
      UpsertMembers(s.pending, id, meta);
    case Completed(id, outcome, now) =>
      assert id in s.active;
      WithoutMembers(s.running, id);
  }

  lemma {:induction false} SpawnedInv(s: State, noEndpoint: bool)
    requires Inv(s)
    ensures Inv(Spawned(s, noEndpoint)) && Settled(Spawned(s, noEndpoint))
    decreases |s.pending|
  {
    if |s.pending| > 0 && s.Tasks() < SYMB_MAX_PAR {
      PopInv(s);
      var n := |s.pending| - 1;
      var popped := s.(pending := s.pending[..n]);
      SpawnedInv(if noEndpoint then popped else Started(popped, s.pending[n].0), noEndpoint);
    }
  }

  lemma {:induction false} PopInv(s: State)
    requires Inv(s) && |s.pending| > 0 && s.Tasks() < SYMB_MAX_PAR
    ensures
      var n := |s.pending| - 1;
      Inv(s.(pending := s.pending[..n])) && Inv(Started(s.(pending := s.pending[..n]), s.pending[n].0))
  {
    var n := |s.pending| - 1;
    var most, id := s.pending[..n], s.pending[n].0;
    forall i | 0 <= i < n ensures most[i] == s.pending[i] && most[i].0 != id {
      assert Firsts(s.pending)[i] != Firsts(s.pending)[n];
    }
    assert Firsts(most) == Firsts(s.pending)[..n];
    assert id !in s.active;
  }

  // -------------------------------------------------------------------- runs

  ghost function Next(s: State, e: Event, noEndpoint: bool): Option<State> {
    match e
    case Loop(u) => Round(s, u, noEndpoint)
    case TableSet(exes) => Some(s.(exes := exes))
  }

  /** The state after a sequence of events; nothing once a turn has panicked. */
  ghost function After(s: State, es: seq<Event>, noEndpoint: bool): Option<State>
    decreases |es|
  {
    if |es| == 0 then Some(s)
    else
      match After(s, es[..|es| - 1], noEndpoint)
      case None => None
      case Some(m) => Next(m, es[|es| - 1], noEndpoint)
  }

  /** Each update could happen when it did. */
  ghost predicate IsRun(s: State, es: seq<Event>, noEndpoint: bool)
    decreases |es|
  {
    |es| == 0 || (
      && IsRun(s, es[..|es| - 1], noEndpoint)
      && var m := After(s, es[..|es| - 1], noEndpoint);
         m.Some? && es[|es| - 1].Loop? ==> Enabled(m.value, es[|es| - 1].update))
  }

  /** A turn panics if and only if a fetch completes while its file has no row. */
  lemma {:induction false} RoundPanics(s: State, u: Update, noEndpoint: bool)
    requires Inv(s) && Enabled(s, u)
    ensures Round(s, u, noEndpoint).None? <==> u.Completed? && u.id !in s.exes
    ensures Round(s, u, noEndpoint).Some? ==>
      var r := Round(s, u, noEndpoint).value;
      && Inv(r) && Settled(r) && r.exes.Keys == s.exes.Keys
      && Handled(s, u).Some? && r == Spawned(Handled(s, u).value, noEndpoint)
  {
    if Handled(s, u).Some? {
      HandledInv(s, u);
      ActiveIsRunning(Handled(s, u).value);
      SpawnedInv(Handled(s, u).value, noEndpoint);
      SpawnedTable(Handled(s, u).value, noEndpoint);
    }
  }

  lemma {:induction false} SpawnedTable(s: State, noEndpoint: bool)
    ensures Spawned(s, noEndpoint).exes == s.exes
    decreases |s.pending|
  {
    if |s.pending| > 0 && s.Tasks() < SYMB_MAX_PAR {
      var n := |s.pending| - 1;
      var popped := s.(pending := s.pending[..n]);
      SpawnedTable(if noEndpoint then popped else Started(popped, s.pending[n].0), noEndpoint);
    }
  }

  lemma {:induction false} RoundWrites(s: State, u: Update, noEndpoint: bool)
    requires Inv(s) && Enabled(s, u)
    ensures Round(s, u, noEndpoint).Some? ==> Written(s.exes, u, Round(s, u, noEndpoint).value.exes)
  {
    if Handled(s, u).Some? {
      SpawnedTable(Handled(s, u).value, noEndpoint);
    }
  }

  /** A received file that waits already keeps its place, with what was received now;
      any other comes last. */
  lemma {:induction false} ReceivedPlace(s: State, id: FileId, meta: ExecutableMeta, i: nat)
    requires Inv(s) && id !in s.active && i <= |s.pending|
    requires if i < |s.pending| then s.pending[i].0 == id else id !in Firsts(s.pending)
    ensures Handled(s, Received(id, meta)) == Some(State(
      if i < |s.pending| then s.pending[i := (id, meta)] else s.pending + [(id, meta)], s.active, s.running, s.exes))
  {
    assert i < |s.pending| ==> Firsts(s.pending)[i] == id;
    IndexIsFirst(Firsts(s.pending), id, i);
  }

  ghost predicate Safe(s: State) {
    Inv(s) && Settled(s)
  }

  lemma {:induction false} StartIsSafe(exes: map<FileId, ExecutableMeta>)
    ensures Safe(Start(exes))
  {
  }

  lemma {:induction false} RunKeepsSafe(exes: map<FileId, ExecutableMeta>, es: seq<Event>, noEndpoint: bool)
    requires IsRun(Start(exes), es, noEndpoint)
    ensures After(Start(exes), es, noEndpoint).Some? ==> Safe(After(Start(exes), es, noEndpoint).value)
    decreases |es|
  {
    if |es| == 0 {
      StartIsSafe(exes);
    } else {
      var n := |es| - 1;
      RunKeepsSafe(exes, es[..n], noEndpoint);
      var m := After(Start(exes), es[..n], noEndpoint);
      if m.Some? {
        NextIsSafe(m.value, es[n], noEndpoint);
      }
    }
  }

  /** In every run, for as long as it has not panicked, whatever happens to the table:
      waiting and running files are disjoint, no file has two tasks, at most 15 fetches
      run beside the idle task, and files wait only while the pool is full. */
  lemma {:induction false} RunIsSafe(exes: map<FileId, ExecutableMeta>, es: seq<Event>, noEndpoint: bool)
    requires IsRun(Start(exes), es, noEndpoint)
    ensures
      var r := After(Start(exes), es, noEndpoint);
      r.Some? ==>
        && Inv(r.value) && Settled(r.value)
        && |r.value.active| == |r.value.running| <= 15
        && (|r.value.pending| > 0 ==> |r.value.running| == 15)
  {
    RunKeepsSafe(exes, es, noEndpoint);
    if After(Start(exes), es, noEndpoint).Some? {
      ActiveIsRunning(After(Start(exes), es, noEndpoint).value);
    }
  }

  lemma {:induction false} NextIsSafe(s: State, e: Event, noEndpoint: bool)
    requires Safe(s) && (e.Loop? ==> Enabled(s, e.update))
    ensures
      var r := Next(s, e, noEndpoint);
      && (r.None? <==> e.Loop? && e.update.Completed? && e.update.id !in s.exes)
      && (r.Some? ==> Safe(r.value))
      && (r.Some? ==> r.value.exes.Keys == if e.TableSet? then e.exes.Keys else s.exes.Keys)
  {
    if e.Loop? {
      RoundPanics(s, e.update, noEndpoint);
    }
  }

  /** The files that have a row after the events, which the controller never changes. */
  ghost function Rows(keys: set<FileId>, es: seq<Event>): set<FileId>
    decreases |es|
  {
    if |es| == 0 then keys
    else if es[|es| - 1].TableSet? then es[|es| - 1].exes.Keys
    else Rows(keys, es[..|es| - 1])
  }

  /** Every fetch completes while its file has a row. */
  ghost predicate RowsKept(keys: set<FileId>, es: seq<Event>)
    decreases |es|
  {
    |es| == 0 || (
      && RowsKept(keys, es[..|es| - 1])
      && var e := es[|es| - 1];
         e.Loop? && e.update.Completed? ==> e.update.id in Rows(keys, es[..|es| - 1]))
  }

  /** A run is free of panics if and only if no fetch completes while its file's row is
      gone, as it is after the event data was flushed. */
  lemma {:induction false} RunPanicsIffRowGone(exes: map<FileId, ExecutableMeta>, es: seq<Event>, noEndpoint: bool)
    requires IsRun(Start(exes), es, noEndpoint)
    ensures
      var r := After(Start(exes), es, noEndpoint);
      && (r.Some? <==> RowsKept(exes.Keys, es))
      && (r.Some? ==> r.value.exes.Keys == Rows(exes.Keys, es))
    decreases |es|
  {
    if |es| > 0 {
      var n := |es| - 1;
      RunPanicsIffRowGone(exes, es[..n], noEndpoint);
      RunKeepsSafe(exes, es[..n], noEndpoint);
      var m := After(Start(exes), es[..n], noEndpoint);
      if m.Some? {
        NextIsSafe(m.value, es[n], noEndpoint);
      }
    }
  }

  /** Whether an event writes the row of the file, or all rows. */
  ghost predicate Touches(e: Event, id: FileId) {
    e.TableSet? || (e.update.Completed? && e.update.id == id)
  }

  /** Rows that nothing touches stay as they are, over any part of a run. */
  lemma {:induction false} RowStays(s: State, before: seq<Event>, later: seq<Event>, id: FileId, noEndpoint: bool)
    requires IsRun(s, before + later, noEndpoint) && Safe(s) && After(s, before + later, noEndpoint).Some?
    requires forall j {:trigger later[j]} | 0 <= j < |later| :: !Touches(later[j], id)
    ensures After(s, before, noEndpoint).Some? && IsRun(s, before, noEndpoint)
    ensures SameRow(After(s, before, noEndpoint).value, After(s, before + later, noEndpoint).value, id)
    decreases |later|
  {
    if |later| == 0 {
      assert before + later == before;
    } else {
      var m := |later| - 1;
      assert before + later == before + later[..m] + [later[m]];
      OneMore(s, before + later[..m], later[m], noEndpoint);
      RowStays(s, before, later[..m], id, noEndpoint);
      AllSafe(s, before + later[..m], noEndpoint);
      NextLeaves(After(s, before + later[..m], noEndpoint).value, later[m], id, noEndpoint);
    }
  }

  ghost predicate SameRow(s: State, r: State, id: FileId) {
    (id in r.exes <==> id in s.exes) && (id in s.exes ==> r.exes[id] == s.exes[id])
  }

  lemma {:induction false} AllSafe(s: State, es: seq<Event>, noEndpoint: bool)
    requires IsRun(s, es, noEndpoint) && Safe(s) && After(s, es, noEndpoint).Some?
    ensures Safe(After(s, es, noEndpoint).value)
    decreases |es|
  {
    if |es| > 0 {
      AllSafe(s, es[..|es| - 1], noEndpoint);
      NextIsSafe(After(s, es[..|es| - 1], noEndpoint).value, es[|es| - 1], noEndpoint);
    }
  }

  lemma {:induction false} NextLeaves(s: State, e: Event, id: FileId, noEndpoint: bool)
    requires Safe(s) && (e.Loop? ==> Enabled(s, e.update)) && !Touches(e, id) && Next(s, e, noEndpoint).Some?
    ensures SameRow(s, Next(s, e, noEndpoint).value, id)
  {
    RoundWrites(s, e.update, noEndpoint);
  }

  /** In every run: what the last completion of a file wrote stays its status until the
      table is changed, whatever else is received and completed. */
  lemma {:induction false} LastCompletionStays(exes: map<FileId, ExecutableMeta>, before: seq<Event>, u: Update, later: seq<Event>, noEndpoint: bool)
    requires u.Completed? && forall j {:trigger later[j]} | 0 <= j < |later| :: !Touches(later[j], u.id)
    requires IsRun(Start(exes), before + [Loop(u)] + later, noEndpoint)
    requires After(Start(exes), before + [Loop(u)] + later, noEndpoint).Some?
    ensures
      var now := After(Start(exes), before + [Loop(u)] + later, noEndpoint).value.exes;
      u.id in now && now[u.id].status == match u.outcome case Fetched(status) => status case Failed => TempError(u.now)
  {
    StartIsSafe(exes);
    RowStays(Start(exes), before + [Loop(u)], later, u.id, noEndpoint);
    CompletionWrites(exes, before, u, noEndpoint);
  }

  lemma {:induction false} CompletionWrites(exes: map<FileId, ExecutableMeta>, es: seq<Event>, u: Update, noEndpoint: bool)
    requires IsRun(Start(exes), es + [Loop(u)], noEndpoint) && After(Start(exes), es + [Loop(u)], noEndpoint).Some?
    requires u.Completed?
    ensures
      var now := After(Start(exes), es + [Loop(u)], noEndpoint).value.exes;
      u.id in now && now[u.id].status == match u.outcome case Fetched(status) => status case Failed => TempError(u.now)
  {
    OneMore(Start(exes), es, Loop(u), noEndpoint);
    RunKeepsSafe(exes, es, noEndpoint);
    RoundWrites(After(Start(exes), es, noEndpoint).value, u, noEndpoint);
  }

  /** Such runs exist: one file is received and fetched, the table is flushed, and the
      fetch completes, however it ends. */
  lemma {:induction false} FlushPanics(x: FileId, meta: ExecutableMeta, outcome: Outcome, now: u64)
    ensures
      var es := [Loop(Received(x, meta)), TableSet(map[]), Loop(Completed(x, outcome, now))];
      && IsRun(State([], {}, [], map[x := meta]), es, false)
      && After(State([], {}, [], map[x := meta]), es, false).None?
      && After(State([], {}, [], map[x := meta]), es[..2], false).Some?
  {
    var start := State([], {}, [], map[x := meta]);
    var a, b, c := Loop(Received(x, meta)), TableSet(map[]), Loop(Completed(x, outcome, now));
    assert [] + [a] == [a] && [a] + [b] == [a, b] && [a, b] + [c] == [a, b, c] && [a, b, c][..2] == [a, b];
    OneMore(start, [], a, false);
    ReceivedStarts(start, x, meta);
    assert start.running + [x] == [x];
    OneMore(start, [a], b, false);
    OneMore(start, [a, b], c, false);
  }

  lemma {:induction false} OneMore(s: State, es: seq<Event>, e: Event, noEndpoint: bool)
    ensures
      var m := After(s, es, noEndpoint);
      && After(s, es + [e], noEndpoint) == (match m case None => None case Some(r) => Next(r, e, noEndpoint))
      && (IsRun(s, es + [e], noEndpoint) <==>
            IsRun(s, es, noEndpoint) && (m.Some? && e.Loop? ==> Enabled(m.value, e.update)))
  {
    assert (es + [e])[..|es|] == es;
  }

  lemma {:induction false} SpawnOne(s: State, x: FileId, meta: ExecutableMeta)
    requires s.pending == [(x, meta)] && s.Tasks() < SYMB_MAX_PAR
    ensures Spawned(s, false) == State([], s.active + {x}, s.running + [x], s.exes)
  {
    assert s.pending[..0] == [];
  }

  /** A file received while the pool has room is fetched at once. */
  lemma {:induction false} ReceivedStarts(s: State, x: FileId, meta: ExecutableMeta)
    requires |s.pending| == 0 && s.Tasks() < SYMB_MAX_PAR && |s.active| < SYMB_MAX_PAR && x !in s.active
    ensures Round(s, Received(x, meta), false) == Some(State([], s.active + {x}, s.running + [x], s.exes))
  {
    assert Upsert(s.pending, x, meta) == [(x, meta)];
    var h := State([(x, meta)], s.active, s.running, s.exes);
    assert Handled(s, Received(x, meta)) == Some(h);
    SpawnOne(h, x, meta);
  }

  /** No received file is lost: after the turn it is waiting or its fetch runs, unless
      there is no endpoint to fetch from, in which case nothing keeps waiting. */
  lemma {:induction false} ReceivedIsHandled(s: State, u: Update, noEndpoint: bool)
    requires Inv(s) && Enabled(s, u) && u.Received?
    ensures
      var r := Round(s, u, noEndpoint);
      r.Some? &&
      if noEndpoint then r.value.running == s.running && (|r.value.pending| == 0 || s.Tasks() == SYMB_MAX_PAR)
      else u.id in r.value.active || u.id in Firsts(r.value.pending)
  {
    RoundPanics(s, u, noEndpoint);
    var h := Handled(s, u).value;
    if u.id !in s.active {
      UpsertMembers(s.pending, u.id, u.meta);
      var k :| 0 <= k < |h.pending| && h.pending[k] == (u.id, u.meta);
      assert Firsts(h.pending)[k] == u.id;
    }
    if noEndpoint {
      NothingStarts(h);
    } else {
      SpawnedKeeps(h, u.id);
    }
  }

  lemma {:induction false} NothingStarts(s: State)
    ensures Spawned(s, true).running == s.running
    decreases |s.pending|
  {
    if |s.pending| > 0 && s.Tasks() < SYMB_MAX_PAR {
      NothingStarts(s.(pending := s.pending[..|s.pending| - 1]));
    }
  }

  lemma {:induction false} SpawnedKeeps(s: State, id: FileId)
    requires id in s.active || id in Firsts(s.pending)
    ensures id in Spawned(s, false).active || id in Firsts(Spawned(s, false).pending)
    decreases |s.pending|
  {
    if |s.pending| > 0 && s.Tasks() < SYMB_MAX_PAR {
      var n := |s.pending| - 1;
      var next := Started(s.(pending := s.pending[..n]), s.pending[n].0);
      if id !in next.active {
        var i :| 0 <= i < |s.pending| && Firsts(s.pending)[i] == id;
        assert Firsts(next.pending)[i] == id;
      }
      SpawnedKeeps(next, id);
    }
  }
}
