/**
 * apps/mining-worker/worker.py: the event outbox as a machine. A cycle publishes up to 100 pending
 * rows, then copies up to 200 published rows to ClickHouse and marks every published row as mirrored.
 */
module Outbox {
  import opened Prelude

  type Id = nat

  datatype Status = Pending | Published | Mirrored | Quarantined | Failed

  datatype Event = Event(status: Status, eventTime: int, availableAt: int, attempts: nat)

  type Table = map<Id, Event>

  /**
   * The outbox table as committed, what was handed to the producer, and what ClickHouse holds. The
   * last two are outside the transaction: a rollback does not take anything back from them.
   */
  datatype State = State(table: Table, produced: seq<Id>, inserted: seq<Id>)

  const PUBLISH_LIMIT: nat := 100
  const MIRROR_LIMIT: nat := 200

  function Min(a: nat, b: nat): nat { if a < b then a else b }

  function WithStatus(t: Table, status: Status): set<Id> {
    set id | id in t && t[id].status == status
  }

  function Available(t: Table, now: int): set<Id> {
    set id | id in t && t[id].status == Pending && t[id].availableAt <= now
  }

  /** `batch` is a result of `order by event_time asc limit n` over the candidates. */
  ghost predicate Oldest(t: Table, candidates: set<Id>, limit: nat, batch: seq<Id>)
    requires candidates <= t.Keys
  {
    && Distinct(batch)
    && (forall id :: id in batch ==> id in candidates)
    && |batch| == Min(|candidates|, limit)
    && (forall i, j :: 0 <= i < j < |batch| ==> t[batch[i]].eventTime <= t[batch[j]].eventTime)
    && (forall x, y :: x in batch && y in candidates && y !in batch ==> t[x].eventTime <= t[y].eventTime)
  }

  /** `update ... set status = 'published', attempt_count = attempt_count + 1` for the rows of a batch. */
  function PublishRows(t: Table, batch: seq<Id>): Table {
    map id | id in t ::
      if id in batch then t[id].(status := Published, attempts := t[id].attempts + 1) else t[id]
  }

  /** `update ... set status = 'mirrored_posthog' where status = 'published'`: no limit here. */
  function MirrorRows(t: Table): Table {
    map id | id in t :: if t[id].status == Published then t[id].(status := Mirrored) else t[id]
  }

  // ----- The steps of the machine -----

  /** How a cycle ends. A lost commit took effect although an error was reported. */
  datatype Outcome =
    | PublishRolledBack(handed: nat)
    | PublishCommitLost
    | MirrorRolledBack(landed: seq<Id>)
    | MirrorCommitLost
    | Completed

  /** The clock, what the two selects returned, and how the cycle ended. */
  datatype CycleRun = CycleRun(now: int, batch: seq<Id>, rows: seq<Id>, outcome: Outcome)

  datatype Move = Arrive | Cycle(run: CycleRun)

  /** Other processes add pending rows. */
  ghost predicate Arrives(t: Table, t': Table) {
    && t.Keys <= t'.Keys
    && (forall id :: id in t ==> t'[id] == t[id])
    && (forall id :: id in t' && id !in t ==> t'[id].status == Pending)
  }

  function AfterPublish(s: State, batch: seq<Id>): State {
    State(PublishRows(s.table, batch), s.produced + batch, s.inserted)
  }

  function AfterMirror(p: State, rows: seq<Id>): State {
    State(MirrorRows(p.table), p.produced, p.inserted + rows)
  }

  /** The rows the second select returns. */
  ghost predicate Picked(p: State, rows: seq<Id>) {
    Oldest(p.table, WithStatus(p.table, Published), MIRROR_LIMIT, rows)
  }

  ghost predicate CycleStep(s: State, run: CycleRun, s': State) {
    var p := AfterPublish(s, run.batch);
    && Oldest(s.table, Available(s.table, run.now), PUBLISH_LIMIT, run.batch)
    && match run.outcome
       case PublishRolledBack(handed) =>
         handed <= |run.batch| && s' == State(s.table, s.produced + run.batch[..handed], s.inserted)
       case PublishCommitLost => s' == p
       case MirrorRolledBack(landed) =>
         && Picked(p, run.rows)
         && (forall id :: id in landed ==> id in run.rows)
         && s' == p.(inserted := p.inserted + landed)
       case _ => Picked(p, run.rows) && s' == AfterMirror(p, run.rows)
  }

  ghost predicate Step(s: State, move: Move, s': State) {
    match move
    case Arrive => Arrives(s.table, s'.table) && s'.produced == s.produced && s'.inserted == s.inserted
    case Cycle(run) => CycleStep(s, run, s')
  }

  /** A run of the machine: `states[i + 1]` follows `states[i]` by `moves[i]`. */
  ghost predicate Run(states: seq<State>, moves: seq<Move>) {
    && |states| == |moves| + 1
    && forall i :: 0 <= i < |moves| ==> Step(states[i], moves[i], states[i + 1])
  }

  // ----- Safety -----

  /** Every mirrored row is in ClickHouse and every row that left `pending` was handed to the producer. */
  ghost predicate Safe(s: State) {
    && (forall id :: id in WithStatus(s.table, Mirrored) ==> id in s.inserted && id in s.produced)
    && (forall id :: id in WithStatus(s.table, Published) ==> id in s.produced)
  }

  /** A cycle that commits published rows and does not mirror them. */
  predicate Stalls(move: Move) {
    move.Cycle? && (move.run.outcome.PublishCommitLost? || move.run.outcome.MirrorRolledBack?)
  }

  predicate Mirrors(move: Move) {
    move.Cycle? && (move.run.outcome.MirrorCommitLost? || move.run.outcome.Completed?)
  }

  /** The stalled cycles since rows were last mirrored, among the first `n` steps. */
  function Backlog(moves: seq<Move>, n: nat): nat
    requires n <= |moves|
  {
    if n == 0 then 0
    else if Mirrors(moves[n - 1]) then 0
    else Backlog(moves, n - 1) + if Stalls(moves[n - 1]) then 1 else 0
  }

  /** A select below its limit returns every candidate. */
  lemma SelectsAll(t: Table, candidates: set<Id>, limit: nat, batch: seq<Id>)
    requires candidates <= t.Keys && Oldest(t, candidates, limit, batch)
    ensures |candidates| <= limit ==> forall id :: id in candidates ==> id in batch
  {
    ElementCount(batch);
    SubsetSize(Elements(batch), candidates);
  }

  lemma PublishedGrows(t: Table, candidates: set<Id>, batch: seq<Id>)
    requires candidates <= WithStatus(t, Pending)
    requires candidates <= t.Keys && Oldest(t, candidates, PUBLISH_LIMIT, batch)
    ensures WithStatus(PublishRows(t, batch), Published) == WithStatus(t, Published) + Elements(batch)
    ensures |WithStatus(PublishRows(t, batch), Published)| == |WithStatus(t, Published)| + |batch|
  {
    ElementCount(batch);
    assert WithStatus(PublishRows(t, batch), Published) == WithStatus(t, Published) + Elements(batch);
    assert WithStatus(t, Published) !! Elements(batch);
  }

  /** How a cycle changes the set of published rows. */
  lemma CyclePublished(s: State, run: CycleRun, s': State)
    requires CycleStep(s, run, s')
    ensures |WithStatus(AfterPublish(s, run.batch).table, Published)| == |WithStatus(s.table, Published)| + |run.batch|
    ensures |run.batch| <= PUBLISH_LIMIT
    ensures run.outcome.PublishRolledBack? ==> s'.table == s.table
    ensures Stalls(Cycle(run)) ==> s'.table == AfterPublish(s, run.batch).table
    ensures Mirrors(Cycle(run)) ==> WithStatus(s'.table, Published) == {}
  {
    PublishedGrows(s.table, Available(s.table, run.now), run.batch);
  }

  /** The inductive bound: 100 published rows for every stalled cycle since the last mirroring. */
  lemma StepBound(s: State, move: Move, s': State, backlog: nat)
    requires Step(s, move, s') && |WithStatus(s.table, Published)| <= PUBLISH_LIMIT * backlog
    ensures Mirrors(move) ==> WithStatus(s'.table, Published) == {}
    ensures Stalls(move) ==> |WithStatus(s'.table, Published)| <= PUBLISH_LIMIT * (backlog + 1)
    ensures !Mirrors(move) && !Stalls(move) ==> |WithStatus(s'.table, Published)| <= PUBLISH_LIMIT * backlog
  {
    match move
    case Arrive =>
      assert WithStatus(s'.table, Published) == WithStatus(s.table, Published);
    case Cycle(run) =>
      CyclePublished(s, run, s');
  }

  /** Published rows that neither ClickHouse nor the batch to insert holds. */
  ghost function Unheld(p: State, rows: seq<Id>): set<Id> {
    set id | id in WithStatus(p.table, Published) && id !in p.inserted && id !in rows
  }

  /** The rows a mirroring cycle marks although no insert, now or earlier, ever held them. */
  ghost function Skipped(s: State, run: CycleRun): set<Id> {
    Unheld(AfterPublish(s, run.batch), run.rows)
  }

  lemma PublishSafe(s: State, batch: seq<Id>)
    requires Safe(s)
    ensures Safe(AfterPublish(s, batch))
  {
  }

  lemma MirrorSafeIff(p: State, rows: seq<Id>)
    requires Safe(p)
    ensures Safe(AfterMirror(p, rows)) <==> Unheld(p, rows) == {}
  {
    var s' := AfterMirror(p, rows);
    forall id | id in WithStatus(p.table, Published)
      ensures id in s'.inserted <==> id !in Unheld(p, rows)
      ensures id in WithStatus(s'.table, Mirrored)
    {
    }
  }

  lemma RollbackSafe(s: State, more: seq<Id>, landed: seq<Id>)
    requires Safe(s)
    ensures Safe(State(s.table, s.produced + more, s.inserted + landed))
  {
  }

  /** A step keeps the outbox safe exactly when it skips no row; only a mirroring cycle can. */
  lemma StepSafeIff(s: State, move: Move, s': State)
    requires Step(s, move, s') && Safe(s)
    ensures Safe(s') <==> (Mirrors(move) ==> Skipped(s, move.run) == {})
  {
    if move.Cycle? {
      var run := move.run;
      var p := AfterPublish(s, run.batch);
      PublishSafe(s, run.batch);
      match run.outcome
      case PublishRolledBack(handed) =>
        RollbackSafe(s, run.batch[..handed], []);
        assert s.inserted + [] == s.inserted;
      case PublishCommitLost =>
      case MirrorRolledBack(landed) =>
        RollbackSafe(p, [], landed);
        assert p.produced + [] == p.produced;
      case _ =>
        MirrorSafeIff(p, run.rows);
    }
  }

  /** Mirroring skips nothing when it finds no more published rows than it copies. */
  lemma NothingSkipped(s: State, run: CycleRun, s': State)
    requires CycleStep(s, run, s') && Mirrors(Cycle(run))
    requires |WithStatus(AfterPublish(s, run.batch).table, Published)| <= MIRROR_LIMIT
    ensures Skipped(s, run) == {}
  {
    var p := AfterPublish(s, run.batch);
    SelectsAll(p.table, WithStatus(p.table, Published), MIRROR_LIMIT, run.rows);
  }

  lemma {:induction false} RunBound(states: seq<State>, moves: seq<Move>, n: nat)
    requires Run(states, moves) && n <= |moves|
    requires WithStatus(states[0].table, Published) == {}
    ensures |WithStatus(states[n].table, Published)| <= PUBLISH_LIMIT * Backlog(moves, n)
  {
    if n > 0 {
      RunBound(states, moves, n - 1);
      assert Step(states[n - 1], moves[n - 1], states[n]);
      StepBound(states[n - 1], moves[n - 1], states[n], Backlog(moves, n - 1));
    }
  }

  /**
   * Safety over all runs: started safe and with nothing published, the outbox stays safe in every
   * state as long as no two cycles in a row stall without a mirroring between them.
   */
  lemma {:induction false} OutboxSafety(states: seq<State>, moves: seq<Move>, n: nat)
    requires Run(states, moves) && n <= |moves|
    requires Safe(states[0]) && WithStatus(states[0].table, Published) == {}
    requires forall i :: 0 <= i < n ==> Backlog(moves, i) <= 1
    ensures Safe(states[n])
  {
    if n > 0 {
      OutboxSafety(states, moves, n - 1);
      RunBound(states, moves, n - 1);
      var s, move := states[n - 1], moves[n - 1];
      assert Step(s, move, states[n]);
      if Mirrors(move) {
        CyclePublished(s, move.run, states[n]);
        NothingSkipped(s, move.run, states[n]);
      }
      StepSafeIff(s, move, states[n]);
    }
  }

  // ----- Exactly when rows are skipped -----

  /** No mirroring cycle among the first `n` steps skips a row. */
  ghost predicate SkipsNothing(states: seq<State>, moves: seq<Move>, n: nat)
    requires |states| == |moves| + 1 && n <= |moves|
  {
    forall i :: 0 <= i < n && Mirrors(moves[i]) ==> Skipped(states[i], moves[i].run) == {}
  }

  /** Losing a row and skipping it are the same. */
  lemma {:induction false} SafeIffNothingSkipped(states: seq<State>, moves: seq<Move>, n: nat)
    requires Run(states, moves) && n <= |moves| && Safe(states[0])
    ensures (forall i :: 0 <= i <= n ==> Safe(states[i])) <==> SkipsNothing(states, moves, n)
  {
    if n > 0 {
      SafeIffNothingSkipped(states, moves, n - 1);
      var s, move := states[n - 1], moves[n - 1];
      assert Step(s, move, states[n]);
      if Safe(s) {
        StepSafeIff(s, move, states[n]);
      }
    }
  }

  /** ClickHouse holds only rows that are marked as mirrored: no insert ever survived a rollback. */
  ghost predicate OnlyMirroredInserted(s: State) {
    forall id :: id in s.inserted ==> id in s.table && s.table[id].status == Mirrored
  }

  /** A failed insert left nothing behind. */
  predicate Clean(move: Move) {
    move.Cycle? && move.run.outcome.MirrorRolledBack? ==> move.run.outcome.landed == []
  }

  lemma CleanStep(s: State, move: Move, s': State)
    requires Step(s, move, s') && Clean(move) && OnlyMirroredInserted(s)
    ensures OnlyMirroredInserted(s')
  {
    if move.Cycle? {
      var run := move.run;
      forall id | id in s.inserted
        ensures id !in run.batch
      {
        assert s.table[id].status != Pending;
      }
      if Mirrors(move) {
        forall id | id in run.rows
          ensures id in s'.table && s'.table[id].status == Mirrored
        {
        }
      }
    }
  }

  lemma UnheldCount(p: State, rows: seq<Id>)
    requires Picked(p, rows)
    requires forall id :: id in WithStatus(p.table, Published) ==> id !in p.inserted
    ensures var published := |WithStatus(p.table, Published)|;
            |Unheld(p, rows)| == if published <= MIRROR_LIMIT then 0 else published - MIRROR_LIMIT
  {
    ElementCount(rows);
    assert Elements(rows) <= WithStatus(p.table, Published);
    assert Unheld(p, rows) == WithStatus(p.table, Published) - Elements(rows);
  }

  /** Without earlier inserts, what is skipped is what lies beyond the limit of the select. */
  lemma SkippedCount(s: State, run: CycleRun, s': State)
    requires CycleStep(s, run, s') && Mirrors(Cycle(run)) && OnlyMirroredInserted(s)
    ensures var published := |WithStatus(AfterPublish(s, run.batch).table, Published)|;
            |Skipped(s, run)| == if published <= MIRROR_LIMIT then 0 else published - MIRROR_LIMIT
  {
    var p := AfterPublish(s, run.batch);
    forall id | id in WithStatus(p.table, Published)
      ensures id !in p.inserted
    {
      assert s.table[id].status != Mirrored;
    }
    UnheldCount(p, run.rows);
  }

  /** How many rows stalled cycles published since rows were last mirrored, among the first `n` steps. */
  function Waiting(moves: seq<Move>, n: nat): nat
    requires n <= |moves|
  {
    if n == 0 then 0 else CountAfter(Waiting(moves, n - 1), moves[n - 1])
  }

  function CountAfter(waiting: nat, move: Move): nat {
    if Mirrors(move) then 0 else if Stalls(move) then waiting + |move.run.batch| else waiting
  }

  /** No mirroring cycle finds more published rows than it copies. */
  ghost predicate KeepsLimit(moves: seq<Move>, n: nat)
    requires n <= |moves|
  {
    forall i :: 0 <= i < n && Mirrors(moves[i]) ==> Waiting(moves, i) + |moves[i].run.batch| <= MIRROR_LIMIT
  }

  lemma StepWaiting(s: State, move: Move, s': State)
    requires Step(s, move, s')
    ensures |WithStatus(s'.table, Published)| == CountAfter(|WithStatus(s.table, Published)|, move)
  {
    match move
    case Arrive =>
      assert WithStatus(s'.table, Published) == WithStatus(s.table, Published);
    case Cycle(run) =>
      CyclePublished(s, run, s');
  }

  /** What waits to be mirrored is counted by the batches alone. */
  lemma {:induction false} WaitingRows(states: seq<State>, moves: seq<Move>, n: nat)
    requires Run(states, moves) && n <= |moves| && WithStatus(states[0].table, Published) == {}
    ensures |WithStatus(states[n].table, Published)| == Waiting(moves, n)
  {
    if n > 0 {
      WaitingRows(states, moves, n - 1);
      assert Step(states[n - 1], moves[n - 1], states[n]);
      StepWaiting(states[n - 1], moves[n - 1], states[n]);
    }
  }

  /** Whatever failed inserts leave behind: within the limit nothing is ever lost. */
  lemma WithinLimitIsSafe(states: seq<State>, moves: seq<Move>, n: nat)
    requires Run(states, moves) && n <= |moves|
    requires Safe(states[0]) && WithStatus(states[0].table, Published) == {} && KeepsLimit(moves, n)
    ensures forall i :: 0 <= i <= n ==> Safe(states[i])
  {
    forall i | 0 <= i < n && Mirrors(moves[i])
      ensures Skipped(states[i], moves[i].run) == {}
    {
      WaitingRows(states, moves, i);
      assert Step(states[i], moves[i], states[i + 1]);
      CyclePublished(states[i], moves[i].run, states[i + 1]);
      NothingSkipped(states[i], moves[i].run, states[i + 1]);
    }
    SafeIffNothingSkipped(states, moves, n);
  }

  lemma {:induction false} CleanRun(states: seq<State>, moves: seq<Move>, n: nat)
    requires Run(states, moves) && n <= |moves| && OnlyMirroredInserted(states[0])
    requires forall i :: 0 <= i < n ==> Clean(moves[i])
    ensures OnlyMirroredInserted(states[n])
  {
    if n > 0 {
      CleanRun(states, moves, n - 1);
      assert Step(states[n - 1], moves[n - 1], states[n]) && Clean(moves[n - 1]);
      CleanStep(states[n - 1], moves[n - 1], states[n]);
    }
  }

  /** The number of rows a mirroring cycle of a clean run loses. */
  lemma RunSkips(states: seq<State>, moves: seq<Move>, i: nat)
    requires Run(states, moves) && i < |moves| && Mirrors(moves[i])
    requires WithStatus(states[0].table, Published) == {} && OnlyMirroredInserted(states[0])
    requires forall j :: 0 <= j < i ==> Clean(moves[j])
    ensures var published := Waiting(moves, i) + |moves[i].run.batch|;
            |Skipped(states[i], moves[i].run)| == if published <= MIRROR_LIMIT then 0 else published - MIRROR_LIMIT
  {
    WaitingRows(states, moves, i);
    CleanRun(states, moves, i);
    assert Step(states[i], moves[i], states[i + 1]);
    CyclePublished(states[i], moves[i].run, states[i + 1]);
    SkippedCount(states[i], moves[i].run, states[i + 1]);
  }

  /**
   * Exactly when a run is safe, in terms of the sizes of its batches: whenever rows are mirrored, the
   * batches published and not mirrored since the last time, with the one just published, come to
   * no more than the 200 rows that are copied.
   */
  lemma RunSafeIff(states: seq<State>, moves: seq<Move>, n: nat)
    requires Run(states, moves) && n <= |moves|
    requires Safe(states[0]) && WithStatus(states[0].table, Published) == {} && OnlyMirroredInserted(states[0])
    requires forall i :: 0 <= i < n ==> Clean(moves[i])
    ensures (forall i :: 0 <= i <= n ==> Safe(states[i])) <==> KeepsLimit(moves, n)
  {
    if KeepsLimit(moves, n) {
      WithinLimitIsSafe(states, moves, n);
    } else {
      var i :| 0 <= i < n && Mirrors(moves[i]) && Waiting(moves, i) + |moves[i].run.batch| > MIRROR_LIMIT;
      RunSkips(states, moves, i);
      SafeIffNothingSkipped(states, moves, n);
    }
  }

  // ----- Any run: failed inserts may have left rows behind -----

  predicate Has(t: Table, id: Id, status: Status) {
    id in t && t[id].status == status
  }

  /** A stalled cycle published the row and no cycle has mirrored rows since. */
  predicate Waits(moves: seq<Move>, n: nat, id: Id)
    requires n <= |moves|
  {
    && n > 0 && !Mirrors(moves[n - 1])
    && (Waits(moves, n - 1, id) || (Stalls(moves[n - 1]) && id in moves[n - 1].run.batch))
  }

  /** The failed insert of this step left the row in ClickHouse. */
  predicate LeftBy(move: Move, id: Id) {
    move.Cycle? && move.run.outcome.MirrorRolledBack? && id in move.run.outcome.landed
  }

  /** A failed insert left the row in ClickHouse and no cycle has mirrored rows since. */
  predicate Left(moves: seq<Move>, n: nat, id: Id)
    requires n <= |moves|
  {
    n > 0 && !Mirrors(moves[n - 1]) && (Left(moves, n - 1, id) || LeftBy(moves[n - 1], id))
  }

  /** ClickHouse holds no pending row, and a published one exactly when a failed insert left it there. */
  ghost predicate HoldsRow(s: State, id: Id, left: bool) {
    && (id in s.inserted ==> Has(s.table, id, Published) || Has(s.table, id, Mirrored))
    && (left ==> Has(s.table, id, Published))
    && (Has(s.table, id, Published) ==> (id in s.inserted <==> left))
  }

  /** What a step does to one row. */
  lemma StepRow(s: State, move: Move, s': State, id: Id)
    requires Step(s, move, s')
    ensures Has(s'.table, id, Published) <==>
            !Mirrors(move) && (Has(s.table, id, Published) || (Stalls(move) && id in move.run.batch))
    ensures Has(s.table, id, Mirrored) ==> Has(s'.table, id, Mirrored)
    ensures Mirrors(move) && (Has(s.table, id, Published) || id in move.run.batch) ==> Has(s'.table, id, Mirrored)
    ensures id in s'.inserted <==>
            id in s.inserted || LeftBy(move, id) || (Mirrors(move) && id in move.run.rows)
    ensures LeftBy(move, id) ==> Has(s'.table, id, Published)
    ensures Mirrors(move) && id in move.run.rows ==> Has(s'.table, id, Mirrored)
    ensures move.Cycle? && id in move.run.batch ==> Has(s.table, id, Pending)
  {
  }

  lemma RowHeld(s: State, move: Move, s': State, id: Id, left: bool)
    requires Step(s, move, s') && HoldsRow(s, id, left)
    ensures HoldsRow(s', id, !Mirrors(move) && (left || LeftBy(move, id)))
  {
    StepRow(s, move, s', id);
  }

  lemma {:induction false} RunRow(states: seq<State>, moves: seq<Move>, n: nat, id: Id)
    requires Run(states, moves) && n <= |moves|
    requires WithStatus(states[0].table, Published) == {} && OnlyMirroredInserted(states[0])
    ensures Has(states[n].table, id, Published) <==> Waits(moves, n, id)
    ensures HoldsRow(states[n], id, Left(moves, n, id))
  {
    if n == 0 {
      assert Has(states[0].table, id, Published) <==> id in WithStatus(states[0].table, Published);
    } else {
      RunRow(states, moves, n - 1, id);
      assert Step(states[n - 1], moves[n - 1], states[n]);
      StepRow(states[n - 1], moves[n - 1], states[n], id);
      RowHeld(states[n - 1], moves[n - 1], states[n], id, Left(moves, n - 1, id));
    }
  }

  /** Every row that waits or was just published is copied now, unless a failed insert left it behind. */
  ghost predicate AllHeld(moves: seq<Move>, i: nat)
    requires i < |moves| && moves[i].Cycle?
  {
    forall id :: Waits(moves, i, id) || id in moves[i].run.batch ==> Left(moves, i, id) || id in moves[i].run.rows
  }

  lemma SkipsIff(states: seq<State>, moves: seq<Move>, i: nat)
    requires Run(states, moves) && i < |moves| && Mirrors(moves[i])
    requires WithStatus(states[0].table, Published) == {} && OnlyMirroredInserted(states[0])
    ensures Skipped(states[i], moves[i].run) == {} <==> AllHeld(moves, i)
  {
    var s, run := states[i], moves[i].run;
    assert Step(s, moves[i], states[i + 1]);
    forall id
      ensures id in Skipped(s, run) <==>
              (Waits(moves, i, id) || id in run.batch) && !(Left(moves, i, id) || id in run.rows)
    {
      RunRow(states, moves, i, id);
      StepRow(s, moves[i], states[i + 1], id);
    }
  }

  /**
   * Exactly when any run is safe, whatever failed inserts left behind, read off what the selects
   * returned and what landed: at every mirroring, each row published since the last one is among the
   * rows copied now or was left in ClickHouse by an insert that failed.
   */
  lemma AnyRunSafeIff(states: seq<State>, moves: seq<Move>, n: nat)
    requires Run(states, moves) && n <= |moves|
    requires Safe(states[0]) && WithStatus(states[0].table, Published) == {} && OnlyMirroredInserted(states[0])
    ensures (forall i :: 0 <= i <= n ==> Safe(states[i])) <==>
            forall i :: 0 <= i < n && Mirrors(moves[i]) ==> AllHeld(moves, i)
  {
    SafeIffNothingSkipped(states, moves, n);
    forall i | 0 <= i < n && Mirrors(moves[i])
      ensures Skipped(states[i], moves[i].run) == {} <==> AllHeld(moves, i)
    {
      SkipsIff(states, moves, i);
    }
  }

  /** Cycles that publish a full batch and then fail without a trace. */
  ghost predicate FullCleanStall(move: Move) {
    Stalls(move) && Clean(move) && |move.run.batch| == PUBLISH_LIMIT
  }

  lemma {:induction false} StallsAccumulate(states: seq<State>, moves: seq<Move>, n: nat)
    requires Run(states, moves) && n <= |moves|
    requires WithStatus(states[0].table, Published) == {} && OnlyMirroredInserted(states[0])
    requires forall i :: 0 <= i < n ==> FullCleanStall(moves[i])
    ensures |WithStatus(states[n].table, Published)| == PUBLISH_LIMIT * n && OnlyMirroredInserted(states[n])
  {
    if n > 0 {
      StallsAccumulate(states, moves, n - 1);
      var s, move := states[n - 1], moves[n - 1];
      assert Step(s, move, states[n]) && FullCleanStall(move);
      CyclePublished(s, move.run, states[n]);
      CleanStep(s, move, states[n]);
    }
  }

  /**
   * How much is lost: after `k` full cycles that stalled, a full cycle that completes marks
   * 100 * (k + 1) rows and inserts 200 of them. One stall is harmless, the second loses 100 rows.
   */
  lemma StallsLoseRows(states: seq<State>, moves: seq<Move>, k: nat)
    requires Run(states, moves) && |moves| == k + 1
    requires WithStatus(states[0].table, Published) == {} && OnlyMirroredInserted(states[0]) && Safe(states[0])
    requires forall i :: 0 <= i < k ==> FullCleanStall(moves[i])
    requires Mirrors(moves[k]) && |moves[k].run.batch| == PUBLISH_LIMIT
    ensures |Skipped(states[k], moves[k].run)| == if k <= 1 then 0 else 100 * (k - 1)
    ensures Safe(states[k + 1]) <==> k <= 1
  {
    StallsAccumulate(states, moves, k);
    var s, move := states[k], moves[k];
    assert Step(s, move, states[k + 1]);
    CyclePublished(s, move.run, states[k + 1]);
    SkippedCount(s, move.run, states[k + 1]);
    StallsKeepSafe(states, moves, k);
    StepSafeIff(s, move, states[k + 1]);
  }

  lemma {:induction false} StallsKeepSafe(states: seq<State>, moves: seq<Move>, n: nat)
    requires Run(states, moves) && n <= |moves| && Safe(states[0])
    requires forall i :: 0 <= i < n ==> FullCleanStall(moves[i])
    ensures Safe(states[n])
  {
    if n > 0 {
      StallsKeepSafe(states, moves, n - 1);
      assert Step(states[n - 1], moves[n - 1], states[n]) && FullCleanStall(moves[n - 1]);
      StepSafeIff(states[n - 1], moves[n - 1], states[n]);
    }
  }

  // ----- A run that loses rows -----

  /** The ids from `a` up to `b`. */
  function Ids(a: nat, b: nat): (ids: seq<Id>)
    requires a <= b
    ensures |ids| == b - a && forall i :: 0 <= i < |ids| ==> ids[i] == a + i
  {
    seq(b - a, i requires 0 <= i < b - a => a + i)
  }

  /** `size` rows in the order of their times, of which the first `n` are published. */
  function HalfPublished(size: nat, n: nat): Table {
    map id: nat | id < size :: if id < n then Event(Published, id, 0, 1) else Event(Pending, id, 0, 0)
  }

  /** After `i` of the cycles that publish 100 rows and lose the answer to their commit. */
  function StallState(k: nat, i: nat): State {
    State(HalfPublished(100 * (k + 1), 100 * i), Ids(0, 100 * i), [])
  }

  function StallCycle(i: nat): CycleRun {
    CycleRun(0, Ids(100 * i, 100 * (i + 1)), [], PublishCommitLost)
  }

  function LastCycle(k: nat): CycleRun {
    CycleRun(0, Ids(100 * k, 100 * (k + 1)), Ids(0, 200), Completed)
  }

  function LosingMoves(k: nat): (moves: seq<Move>)
    ensures |moves| == k + 1
    ensures forall i :: 0 <= i < k ==> moves[i] == Cycle(StallCycle(i))
    ensures moves[k] == Cycle(LastCycle(k))
  {
    seq(k, i requires 0 <= i < k => Cycle(StallCycle(i))) + [Cycle(LastCycle(k))]
  }

  function LosingStates(k: nat): (states: seq<State>)
    ensures |states| == k + 2
    ensures forall i :: 0 <= i <= k ==> states[i] == StallState(k, i)
    ensures states[k + 1] == AfterMirror(AfterPublish(StallState(k, k), LastCycle(k).batch), LastCycle(k).rows)
  {
    seq(k + 1, i requires 0 <= i <= k => StallState(k, i))
    + [AfterMirror(AfterPublish(StallState(k, k), LastCycle(k).batch), LastCycle(k).rows)]
  }

  lemma IdsHold(a: nat, b: nat)
    requires a <= b
    ensures forall id: nat :: id in Ids(a, b) <==> a <= id < b
    ensures Distinct(Ids(a, b))
  {
    forall id: nat | a <= id < b
      ensures id in Ids(a, b)
    {
      assert Ids(a, b)[id - a] == id;
    }
  }

  /** The first rows of a range are its oldest. */
  lemma IdsAreOldest(t: Table, candidates: set<Id>, a: nat, b: nat, limit: nat)
    requires a + limit <= b && candidates <= t.Keys
    requires forall id: nat :: id in candidates <==> a <= id < b
    requires forall id :: id in candidates ==> t[id].eventTime == id
    ensures Oldest(t, candidates, limit, Ids(a, a + limit))
  {
    IdsHold(a, b);
    IdsHold(a, a + limit);
    ElementCount(Ids(a, b));
    assert Elements(Ids(a, b)) == candidates;
    assert forall id :: id in Ids(a, a + limit) ==> id in candidates;
  }

  lemma StallBatch(k: nat, i: nat)
    requires i <= k
    ensures var s := StallState(k, i);
            Oldest(s.table, Available(s.table, 0), PUBLISH_LIMIT, Ids(100 * i, 100 * (i + 1)))
  {
    var s := StallState(k, i);
    IdsAreOldest(s.table, Available(s.table, 0), 100 * i, 100 * (k + 1), PUBLISH_LIMIT);
  }

  lemma StallPublishes(k: nat, i: nat)
    requires i <= k
    ensures AfterPublish(StallState(k, i), Ids(100 * i, 100 * (i + 1))) == StallState(k, i + 1)
  {
    var s, batch := StallState(k, i), Ids(100 * i, 100 * (i + 1));
    IdsHold(100 * i, 100 * (i + 1));
    assert PublishRows(s.table, batch) == HalfPublished(100 * (k + 1), 100 * (i + 1));
    assert s.produced + batch == Ids(0, 100 * (i + 1));
  }

  lemma LastMirrors(k: nat)
    requires k >= 1
    ensures Picked(StallState(k, k + 1), Ids(0, 200))
  {
    var p := StallState(k, k + 1);
    IdsAreOldest(p.table, WithStatus(p.table, Published), 0, 100 * (k + 1), MIRROR_LIMIT);
  }

  lemma StallStep(k: nat, i: nat)
    requires i < k
    ensures Step(StallState(k, i), Cycle(StallCycle(i)), StallState(k, i + 1))
  {
    StallBatch(k, i);
    StallPublishes(k, i);
  }

  lemma LastStep(k: nat)
    requires k >= 1
    ensures Step(StallState(k, k), Cycle(LastCycle(k)),
                 AfterMirror(AfterPublish(StallState(k, k), LastCycle(k).batch), LastCycle(k).rows))
  {
    StallBatch(k, k);
    StallPublishes(k, k);
    LastMirrors(k);
  }

  lemma LosingStep(k: nat, i: nat)
    requires k >= 1 && i <= k
    ensures Step(LosingStates(k)[i], LosingMoves(k)[i], LosingStates(k)[i + 1])
  {
    var s, move, s' := LosingStates(k)[i], LosingMoves(k)[i], LosingStates(k)[i + 1];
    if i < k {
      StallStep(k, i);
      assert s == StallState(k, i) && move == Cycle(StallCycle(i)) && s' == StallState(k, i + 1);
    } else {
      LastStep(k);
      assert s == StallState(k, k) && move == Cycle(LastCycle(k));
    }
  }

  lemma LosingIsRun(k: nat)
    requires k >= 1
    ensures Run(LosingStates(k), LosingMoves(k))
  {
    forall i | 0 <= i < k + 1
      ensures Step(LosingStates(k)[i], LosingMoves(k)[i], LosingStates(k)[i + 1])
    {
      LosingStep(k, i);
    }
  }

  /**
   * The loss is not only possible on paper: for every number of stalled cycles above one there is a
   * run that ends with 100 rows per further stall marked as mirrored and held by nobody.
   */
  lemma LosingRun(k: nat)
    requires k >= 2
    ensures var states, moves := LosingStates(k), LosingMoves(k);
            && Run(states, moves) && Safe(states[0]) && WithStatus(states[0].table, Published) == {}
            && |Skipped(states[k], moves[k].run)| == 100 * (k - 1)
            && !Safe(states[k + 1])
  {
    LosingIsRun(k);
    StallsLoseRows(LosingStates(k), LosingMoves(k), k);
  }

  // ----- Draining the outbox -----

  /** Every cycle completes, nothing arrives, and every pending row is available. */
  ghost predicate Undisturbed(states: seq<State>, moves: seq<Move>) {
    && Run(states, moves)
    && forall i :: 0 <= i < |moves| ==>
         && moves[i].Cycle? && moves[i].run.outcome == Completed
         && Available(states[i].table, moves[i].run.now) == WithStatus(states[i].table, Pending)
  }

  function Remaining(pending: nat, cycles: nat): nat {
    if pending <= PUBLISH_LIMIT * cycles then 0 else pending - PUBLISH_LIMIT * cycles
  }

  /** The rows that were pending at the start and are not any more are mirrored and inserted. */
  ghost predicate Drained(start: State, s: State) {
    && s.table.Keys == start.table.Keys
    && WithStatus(s.table, Pending) <= WithStatus(start.table, Pending)
    && forall id :: id in WithStatus(start.table, Pending) && id !in WithStatus(s.table, Pending) ==>
         s.table[id].status == Mirrored && id in s.inserted && id in s.produced
  }

  lemma CompletedStep(s: State, move: Move, s': State)
    requires Step(s, move, s') && move.Cycle? && move.run.outcome == Completed
    requires Available(s.table, move.run.now) == WithStatus(s.table, Pending)
    requires WithStatus(s.table, Published) == {}
    ensures WithStatus(s'.table, Published) == {} && Drained(s, s')
    ensures |WithStatus(s'.table, Pending)| == Remaining(|WithStatus(s.table, Pending)|, 1)
    ensures WithStatus(s'.table, Pending) == WithStatus(s.table, Pending) - Elements(move.run.batch)
  {
    var run := move.run;
    var published := PublishRows(s.table, run.batch);
    PublishedGrows(s.table, Available(s.table, run.now), run.batch);
    SelectsAll(published, WithStatus(published, Published), MIRROR_LIMIT, run.rows);
    ElementCount(run.batch);
    assert WithStatus(s'.table, Pending) == WithStatus(s.table, Pending) - Elements(run.batch);
  }

  lemma DrainedOn(start: State, s: State, s': State)
    requires Drained(start, s) && Drained(s, s')
    requires TableProgress(s.table, s'.table) && s.produced <= s'.produced && s.inserted <= s'.inserted
    ensures Drained(start, s')
  {
    forall id | id in WithStatus(start.table, Pending) && id !in WithStatus(s'.table, Pending)
      ensures s'.table[id].status == Mirrored && id in s'.inserted && id in s'.produced
    {
      if id !in WithStatus(s.table, Pending) {
        assert s.table[id].status == Mirrored && Progress(s.table[id], s'.table[id]);
      }
    }
  }

  /** `n` undisturbed cycles take 100 rows each from the pending ones until none is left. */
  lemma {:induction false} DrainBound(states: seq<State>, moves: seq<Move>, n: nat)
    requires Undisturbed(states, moves) && n <= |moves| && WithStatus(states[0].table, Published) == {}
    ensures WithStatus(states[n].table, Published) == {} && Drained(states[0], states[n])
    ensures |WithStatus(states[n].table, Pending)| == Remaining(|WithStatus(states[0].table, Pending)|, n)
  {
    if n > 0 {
      var s, move, s' := states[n - 1], moves[n - 1], states[n];
      DrainBound(states, moves, n - 1);
      assert Step(s, move, s');
      CompletedStep(s, move, s');
      StepProgress(s, move, s');
      DrainedOn(states[0], s, s');
    }
  }

  /** With as many cycles as hundreds of pending rows, rounded up, everything is mirrored and inserted. */
  lemma DrainComplete(states: seq<State>, moves: seq<Move>)
    requires Undisturbed(states, moves) && WithStatus(states[0].table, Published) == {}
    requires |WithStatus(states[0].table, Pending)| <= PUBLISH_LIMIT * |moves|
    ensures forall id :: id in WithStatus(states[0].table, Pending) ==>
              var s := states[|moves|];
              id in s.table && s.table[id].status == Mirrored && id in s.inserted && id in s.produced
  {
    DrainBound(states, moves, |moves|);
  }

  /** The rows and their event times are those of the start. */
  ghost predicate SameEvents(start: Table, t: Table) {
    t.Keys == start.Keys && forall id :: id in t ==> t[id].eventTime == start[id].eventTime
  }

  /** A list of rows in the order of their event times. */
  ghost predicate InTimeOrder(t: Table, ids: seq<Id>) {
    && (forall i :: 0 <= i < |ids| ==> ids[i] in t)
    && forall i, j :: 0 <= i < j < |ids| ==> t[ids[i]].eventTime <= t[ids[j]].eventTime
  }

  /** No row of the list is later than any of the set. */
  ghost predicate NotLater(t: Table, ids: seq<Id>, rest: set<Id>) {
    forall i, id :: 0 <= i < |ids| && ids[i] in t && id in rest && id in t ==> t[ids[i]].eventTime <= t[id].eventTime
  }

  /** What was produced since the start is in time order and none of it is later than what is left. */
  ghost predicate InOrder(start: State, s: State) {
    && SameEvents(start.table, s.table)
    && |start.produced| <= |s.produced|
    && InTimeOrder(start.table, s.produced[|start.produced|..])
    && NotLater(start.table, s.produced[|start.produced|..], WithStatus(s.table, Pending))
  }

  lemma TimeOrderConcat(t: Table, a: seq<Id>, b: seq<Id>, pending: set<Id>)
    requires InTimeOrder(t, a) && InTimeOrder(t, b) && NotLater(t, a, pending)
    requires forall id :: id in b ==> id in pending
    ensures InTimeOrder(t, a + b)
  {
    forall i, j | 0 <= i < j < |a + b|
      ensures t[(a + b)[i]].eventTime <= t[(a + b)[j]].eventTime
    {
      if i < |a| <= j {
        assert b[j - |a|] in b;
      }
    }
  }

  lemma BatchInOrder(start: Table, t: Table, pending: set<Id>, batch: seq<Id>)
    requires SameEvents(start, t) && pending <= t.Keys && Oldest(t, pending, PUBLISH_LIMIT, batch)
    ensures InTimeOrder(start, batch)
    ensures NotLater(start, batch, pending - Elements(batch))
  {
    forall i | 0 <= i < |batch|
      ensures batch[i] in batch && batch[i] in start && start[batch[i]].eventTime == t[batch[i]].eventTime
    {
    }
  }

  lemma NotLaterConcat(t: Table, a: seq<Id>, b: seq<Id>, pending: set<Id>, rest: set<Id>)
    requires NotLater(t, a, pending) && NotLater(t, b, rest) && rest <= pending
    ensures NotLater(t, a + b, rest)
  {
  }

  lemma CompletedEvents(s: State, move: Move, s': State)
    requires Step(s, move, s') && move.Cycle? && move.run.outcome == Completed
    ensures s'.produced == s.produced + move.run.batch && SameEvents(s.table, s'.table)
  {
  }

  lemma OrderJoin(start: Table, t: Table, earlier: seq<Id>, batch: seq<Id>)
    requires SameEvents(start, t) && InTimeOrder(start, earlier)
    requires NotLater(start, earlier, WithStatus(t, Pending))
    requires Oldest(t, WithStatus(t, Pending), PUBLISH_LIMIT, batch)
    ensures InTimeOrder(start, earlier + batch)
    ensures NotLater(start, earlier + batch, WithStatus(t, Pending) - Elements(batch))
  {
    var pending := WithStatus(t, Pending);
    BatchInOrder(start, t, pending, batch);
    TimeOrderConcat(start, earlier, batch, pending);
    NotLaterConcat(start, earlier, batch, pending, pending - Elements(batch));
  }

  /** What is in order stays so when a batch follows and the table moves on. */
  lemma InOrderOn(start: State, s: State, batch: seq<Id>, s': State)
    requires SameEvents(start.table, s.table) && SameEvents(s.table, s'.table) && |start.produced| <= |s.produced|
    requires s'.produced == s.produced + batch
    requires InTimeOrder(start.table, s.produced[|start.produced|..] + batch)
    requires NotLater(start.table, s.produced[|start.produced|..] + batch, WithStatus(s'.table, Pending))
    ensures InOrder(start, s')
  {
    assert s'.produced[|start.produced|..] == s.produced[|start.produced|..] + batch;
  }

  lemma OrderStep(start: State, s: State, move: Move, s': State)
    requires InOrder(start, s) && Step(s, move, s') && move.Cycle? && move.run.outcome == Completed
    requires Available(s.table, move.run.now) == WithStatus(s.table, Pending)
    requires WithStatus(s.table, Published) == {}
    ensures InOrder(start, s')
  {
    CompletedStep(s, move, s');
    CompletedEvents(s, move, s');
    OrderJoin(start.table, s.table, s.produced[|start.produced|..], move.run.batch);
    InOrderOn(start, s, move.run.batch, s');
  }

  /** Over a whole drain, events are produced in order of their event times. */
  lemma {:induction false} DrainOrder(states: seq<State>, moves: seq<Move>, n: nat)
    requires Undisturbed(states, moves) && n <= |moves| && WithStatus(states[0].table, Published) == {}
    ensures InOrder(states[0], states[n])
  {
    if n > 0 {
      DrainOrder(states, moves, n - 1);
      DrainBound(states, moves, n - 1);
      assert Step(states[n - 1], moves[n - 1], states[n]);
      OrderStep(states[0], states[n - 1], moves[n - 1], states[n]);
    }
  }

  // ----- Every event once -----

  /** `ids` lists the rows of a set, each once. */
  ghost predicate Lists(ids: seq<Id>, rows: set<Id>) {
    Distinct(ids) && Elements(ids) == rows
  }

  /** Since the start exactly the rows taken from the pending ones were produced, and inserted, once each. */
  ghost predicate TakenOnce(start: State, s: State) {
    var taken := WithStatus(start.table, Pending) - WithStatus(s.table, Pending);
    && start.produced <= s.produced && Lists(s.produced[|start.produced|..], taken)
    && start.inserted <= s.inserted && Lists(s.inserted[|start.inserted|..], taken)
  }

  lemma ListsConcat(a: seq<Id>, rows: set<Id>, b: seq<Id>, more: set<Id>)
    requires Lists(a, rows) && Lists(b, more) && rows !! more
    ensures Lists(a + b, rows + more)
  {
    assert forall i :: 0 <= i < |a| ==> a[i] in Elements(a);
    assert forall i :: 0 <= i < |b| ==> b[i] in Elements(b);
  }

  lemma CompletedLists(s: State, move: Move, s': State)
    requires Step(s, move, s') && move.Cycle? && move.run.outcome == Completed
    requires Available(s.table, move.run.now) == WithStatus(s.table, Pending)
    requires WithStatus(s.table, Published) == {}
    ensures s'.produced == s.produced + move.run.batch && s'.inserted == s.inserted + move.run.rows
    ensures Lists(move.run.batch, Elements(move.run.batch)) && Lists(move.run.rows, Elements(move.run.batch))
  {
    var run := move.run;
    var published := PublishRows(s.table, run.batch);
    PublishedGrows(s.table, Available(s.table, run.now), run.batch);
    ElementCount(run.batch);
    SelectsAll(published, WithStatus(published, Published), MIRROR_LIMIT, run.rows);
    assert Elements(run.rows) == WithStatus(published, Published);
  }

  lemma ListJoin(first: seq<Id>, earlier: seq<Id>, batch: seq<Id>, rows: set<Id>, more: set<Id>)
    requires first <= earlier && Lists(earlier[|first|..], rows) && Lists(batch, more) && rows !! more
    ensures first <= earlier + batch && Lists((earlier + batch)[|first|..], rows + more)
  {
    assert (earlier + batch)[|first|..] == earlier[|first|..] + batch;
    ListsConcat(earlier[|first|..], rows, batch, more);
  }

  lemma TakenJoin(start: State, s: State, batch: seq<Id>, rows: seq<Id>, s': State)
    requires TakenOnce(start, s) && s'.produced == s.produced + batch && s'.inserted == s.inserted + rows
    requires Lists(batch, Elements(batch)) && Lists(rows, Elements(batch))
    requires WithStatus(s.table, Pending) <= WithStatus(start.table, Pending)
    requires Elements(batch) <= WithStatus(s.table, Pending)
    requires WithStatus(s'.table, Pending) == WithStatus(s.table, Pending) - Elements(batch)
    ensures TakenOnce(start, s')
  {
    var taken := WithStatus(start.table, Pending) - WithStatus(s.table, Pending);
    ListJoin(start.produced, s.produced, batch, taken, Elements(batch));
    ListJoin(start.inserted, s.inserted, rows, taken, Elements(batch));
    assert taken + Elements(batch) == WithStatus(start.table, Pending) - WithStatus(s'.table, Pending);
  }

  lemma TakenStep(start: State, s: State, move: Move, s': State)
    requires TakenOnce(start, s) && Step(s, move, s') && move.Cycle? && move.run.outcome == Completed
    requires Available(s.table, move.run.now) == WithStatus(s.table, Pending)
    requires WithStatus(s.table, Published) == {} && WithStatus(s.table, Pending) <= WithStatus(start.table, Pending)
    ensures TakenOnce(start, s')
  {
    CompletedLists(s, move, s');
    CompletedStep(s, move, s');
    TakenJoin(start, s, move.run.batch, move.run.rows, s');
  }

  /** Over a drain no event is produced or inserted twice, and none is left out of what was taken. */
  lemma {:induction false} DrainOnce(states: seq<State>, moves: seq<Move>, n: nat)
    requires Undisturbed(states, moves) && n <= |moves| && WithStatus(states[0].table, Published) == {}
    ensures TakenOnce(states[0], states[n])
  {
    if n > 0 {
      DrainOnce(states, moves, n - 1);
      DrainBound(states, moves, n - 1);
      assert Step(states[n - 1], moves[n - 1], states[n]);
      TakenStep(states[0], states[n - 1], moves[n - 1], states[n]);
    }
  }

  // ----- The life of a row -----

  /**
   * What a row can become: it may be published, which counts one attempt, and then mirrored. Rows that
   * are mirrored, quarantined or failed never change, and no row changes anything else.
   */
  ghost predicate Progress(e: Event, e': Event) {
    || e' == e
    || (e.status == Pending && e' == e.(status := Published, attempts := e.attempts + 1))
    || (e.status == Pending && e' == e.(status := Mirrored, attempts := e.attempts + 1))
    || (e.status == Published && e' == e.(status := Mirrored))
  }

  ghost predicate TableProgress(t: Table, t': Table) {
    forall id :: id in t ==> id in t' && Progress(t[id], t'[id])
  }

  lemma StepProgress(s: State, move: Move, s': State)
    requires Step(s, move, s')
    ensures TableProgress(s.table, s'.table)
    ensures s.produced <= s'.produced && s.inserted <= s'.inserted
  {
    if move.Cycle? {
      var batch := move.run.batch;
      forall id | id in s.table
        ensures id in batch ==> s.table[id].status == Pending
      {
      }
    }
  }

  /** From any state of a run to any later one, no row is lost and each only moves on. */
  lemma {:induction false} RunProgress(states: seq<State>, moves: seq<Move>, i: nat, j: nat)
    requires Run(states, moves) && i <= j <= |moves|
    ensures TableProgress(states[i].table, states[j].table)
    ensures states[i].produced <= states[j].produced && states[i].inserted <= states[j].inserted
    decreases j
  {
    if i < j {
      RunProgress(states, moves, i, j - 1);
      assert Step(states[j - 1], moves[j - 1], states[j]);
      StepProgress(states[j - 1], moves[j - 1], states[j]);
    }
  }


  // ----- One cycle, row by row and in numbers -----

  /** What a cycle does to one row, and which rows it chooses. */
  ghost predicate CycleOf(s: State, run: CycleRun, s': State) {
    var publishes, mirrors := !run.outcome.PublishRolledBack?, run.outcome.MirrorCommitLost? || run.outcome.Completed?;
    && s'.table.Keys == s.table.Keys
    && forall id :: id in s.table ==>
         var e, e' := s.table[id], s'.table[id];
         && e'.eventTime == e.eventTime && e'.availableAt == e.availableAt
         && e'.attempts == e.attempts + (if publishes && id in run.batch then 1 else 0)
         && e'.status ==
            (if mirrors && (id in run.batch || e.status == Published) then Mirrored
             else if publishes && id in run.batch then Published
             else e.status)
  }

  /** Up to 100 pending rows whose time has come, the oldest first; fewer only when there are no more. */
  ghost predicate TakesOldest(s: State, run: CycleRun) {
    && |run.batch| <= 100
    && (forall id :: id in run.batch ==>
          id in s.table && s.table[id].status == Pending && s.table[id].availableAt <= run.now)
    && (forall i, j :: 0 <= i < j < |run.batch| ==>
          run.batch[i] != run.batch[j] && s.table[run.batch[i]].eventTime <= s.table[run.batch[j]].eventTime)
    && forall id :: id in s.table && s.table[id].status == Pending && s.table[id].availableAt <= run.now &&
                    id !in run.batch ==>
         |run.batch| == 100 && forall x :: x in run.batch ==> s.table[x].eventTime <= s.table[id].eventTime
  }

  /** The rows copied are up to 200 of those published, just now or before, the oldest first. */
  ghost predicate CopiesOldest(s: State, run: CycleRun) {
    && |run.rows| <= 200
    && (forall id :: id in run.rows ==> id in s.table && (id in run.batch || s.table[id].status == Published))
    && forall id :: id in s.table && (id in run.batch || s.table[id].status == Published) && id !in run.rows ==>
         |run.rows| == 200 && forall x :: x in run.rows ==> s.table[x].eventTime <= s.table[id].eventTime
  }

  lemma LeftOutMeansFull(t: Table, candidates: set<Id>, limit: nat, batch: seq<Id>, id: Id)
    requires candidates <= t.Keys && Oldest(t, candidates, limit, batch) && id in candidates && id !in batch
    ensures |batch| == limit && forall x :: x in batch ==> t[x].eventTime <= t[id].eventTime
  {
    SelectsAll(t, candidates, limit, batch);
  }

  /** Every cycle of the machine, in terms of rows and numbers alone. */
  lemma CycleExact(s: State, run: CycleRun, s': State)
    requires CycleStep(s, run, s')
    ensures CycleOf(s, run, s') && TakesOldest(s, run)
    ensures run.outcome.MirrorRolledBack? || run.outcome.MirrorCommitLost? || run.outcome.Completed? ==>
              CopiesOldest(s, run)
    ensures run.outcome.PublishRolledBack? ==>
              exists n :: 0 <= n <= |run.batch| && s'.produced == s.produced + run.batch[..n]
    ensures !run.outcome.PublishRolledBack? ==> s'.produced == s.produced + run.batch
    ensures run.outcome.MirrorCommitLost? || run.outcome.Completed? ==> s'.inserted == s.inserted + run.rows
  {
    TakesExact(s, run);
    if run.outcome.MirrorRolledBack? || run.outcome.MirrorCommitLost? || run.outcome.Completed? {
      CopiesExact(s, run);
    }
    RowsExact(s, run, s');
  }

  lemma TakesExact(s: State, run: CycleRun)
    requires Oldest(s.table, Available(s.table, run.now), PUBLISH_LIMIT, run.batch)
    ensures TakesOldest(s, run)
  {
    forall id | id in Available(s.table, run.now) && id !in run.batch
      ensures |run.batch| == 100 && forall x :: x in run.batch ==> s.table[x].eventTime <= s.table[id].eventTime
    {
      LeftOutMeansFull(s.table, Available(s.table, run.now), PUBLISH_LIMIT, run.batch, id);
    }
  }

  lemma CopiesExact(s: State, run: CycleRun)
    requires Oldest(s.table, Available(s.table, run.now), PUBLISH_LIMIT, run.batch)
    requires Picked(AfterPublish(s, run.batch), run.rows)
    ensures CopiesOldest(s, run)
  {
    var t := PublishRows(s.table, run.batch);
    forall id | id in WithStatus(t, Published) && id !in run.rows
      ensures |run.rows| == 200 && forall x :: x in run.rows ==> t[x].eventTime <= t[id].eventTime
    {
      LeftOutMeansFull(t, WithStatus(t, Published), MIRROR_LIMIT, run.rows, id);
    }
  }

  lemma RowsExact(s: State, run: CycleRun, s': State)
    requires CycleStep(s, run, s')
    ensures CycleOf(s, run, s')
  {
    assert forall id :: id in run.batch ==> s.table[id].status == Pending;
  }
}
