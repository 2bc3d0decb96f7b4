/** apps/mining-worker/worker.py: the worker's methods, carried out against the outbox machine. */
module OutboxWorker {
  import opened Prelude
  import opened Outbox

  /**
   * Where a cycle raises an exception, if it does: while handing rows to the producer, at one of the
   * two commits (which may have taken effect all the same), during the insert into ClickHouse (which
   * may have kept some rows), or in the refreshes behind them.
   */
  datatype Fault =
    | NoFault
    | PublishFails(after: nat)
    | PublishCommitFails(applied: bool)
    | InsertFails(landed: nat)
    | MirrorCommitFails(applied: bool)
    | RefreshFails

  lemma {:induction false} OldestExists(t: Table, rest: set<Id>)
    requires rest != {} && rest <= t.Keys
    ensures exists x :: x in rest && forall y :: y in rest ==> t[x].eventTime <= t[y].eventTime
  {
    var x :| x in rest;
    if rest != {x} {
      OldestExists(t, rest - {x});
      var z :| z in rest - {x} && forall y :: y in rest - {x} ==> t[z].eventTime <= t[y].eventTime;
      var w := if t[x].eventTime <= t[z].eventTime then x else z;
      assert w in rest;
      forall y | y in rest
        ensures t[w].eventTime <= t[y].eventTime
      {
        if y != x {
          assert y in rest - {x};
        }
      }
    }
  }

  /** The oldest candidates are taken, in order, and `rest` is left. */
  ghost predicate Taken(t: Table, candidates: set<Id>, batch: seq<Id>, rest: set<Id>)
    requires candidates <= t.Keys
  {
    && Distinct(batch)
    && Elements(batch) !! rest && Elements(batch) + rest == candidates
    && (forall i :: 0 <= i < |batch| ==> batch[i] in candidates)
    && (forall i, j :: 0 <= i < j < |batch| ==> t[batch[i]].eventTime <= t[batch[j]].eventTime)
    && (forall i, y :: 0 <= i < |batch| && y in rest ==> t[batch[i]].eventTime <= t[y].eventTime)
  }

  lemma TakeNext(t: Table, candidates: set<Id>, batch: seq<Id>, rest: set<Id>, x: Id)
    requires candidates <= t.Keys && Taken(t, candidates, batch, rest)
    requires x in rest && forall y :: y in rest ==> t[x].eventTime <= t[y].eventTime
    ensures Taken(t, candidates, batch + [x], rest - {x})
  {
    assert Elements(batch + [x]) == Elements(batch) + {x};
    forall i | 0 <= i < |batch|
      ensures batch[i] != x
    {
      assert batch[i] in Elements(batch);
    }
  }

  lemma TakenIsOldest(t: Table, candidates: set<Id>, limit: nat, batch: seq<Id>, rest: set<Id>)
    requires candidates <= t.Keys && Taken(t, candidates, batch, rest)
    requires |batch| <= limit && (|batch| == limit || rest == {})
    ensures Oldest(t, candidates, limit, batch)
  {
    ElementCount(batch);
    assert |candidates| == |batch| + |rest|;
    forall x, y | x in batch && y in candidates && y !in batch
      ensures t[x].eventTime <= t[y].eventTime
    {
      assert y in rest;
    }
  }

  /** `order by event_time asc limit n`. */
  method SelectOldest(t: Table, candidates: set<Id>, limit: nat) returns (batch: seq<Id>)
    requires candidates <= t.Keys
    ensures Oldest(t, candidates, limit, batch)
  {
    batch := [];
    var rest := candidates;
    while |batch| < limit && rest != {}
      invariant Taken(t, candidates, batch, rest) && rest <= candidates && |batch| <= limit
      decreases rest
    {
      OldestExists(t, rest);
      var x :| x in rest && forall y :: y in rest ==> t[x].eventTime <= t[y].eventTime;
      TakeNext(t, candidates, batch, rest, x);
      batch := batch + [x];
      rest := rest - {x};
    }
    TakenIsOldest(t, candidates, limit, batch, rest);
  }

  class MiningWorker {
    var committed: Table  // the outbox as other connections see it
    var session: Table    // the outbox as the open transaction sees it
    var produced: seq<Id>
    var inserted: seq<Id>
    var successfulCycles: nat
    var failedCycles: nat

    constructor (outbox: Table)
      ensures MachineState() == State(outbox, [], []) && session == outbox
      ensures successfulCycles == 0 && failedCycles == 0
    {
      committed, session, produced, inserted := outbox, outbox, [], [];
      successfulCycles, failedCycles := 0, 0;
    }

    /** The state of the outbox machine between two cycles. */
    function MachineState(): State
      reads this
    {
      State(committed, produced, inserted)
    }

    /** The loop over the selected rows, up to the place where it may fail. */
    method HandOver(batch: seq<Id>, count: nat)
      requires session == committed && count <= |batch| && Distinct(batch)
      requires forall id :: id in batch ==> id in committed
      modifies this`session, this`produced
      ensures session == PublishRows(committed, batch[..count]) && produced == old(produced) + batch[..count]
    {
      NothingPublished(session);
      for i := 0 to count
        invariant session == PublishRows(committed, batch[..i])
        invariant produced == old(produced) + batch[..i]
      {
        produced := produced + [batch[i]];
        OneMorePublished(committed, batch, i);
        var row := session[batch[i]];
        session := session[batch[i] := row.(status := Published, attempts := row.attempts + 1)];
      }
    }

    /** Selects the oldest available pending rows, hands each to the producer and marks it, then commits. */
    method PublishPendingEvents(now: int, fault: Fault) returns (ok: bool, batch: seq<Id>)
      requires session == committed
      modifies this`committed, this`session, this`produced
      ensures Oldest(old(committed), Available(old(committed), now), PUBLISH_LIMIT, batch)
      ensures ok <==> !fault.PublishFails? && !fault.PublishCommitFails?
      ensures produced == old(produced) + if fault.PublishFails? then batch[..Min(fault.after, |batch|)] else batch
      ensures committed == if ok || fault == PublishCommitFails(true) then PublishRows(old(committed), batch)
                           else old(committed)
      ensures ok ==> session == committed
    {
      batch := SelectOldest(session, Available(session, now), PUBLISH_LIMIT);
      var count := if fault.PublishFails? then Min(fault.after, |batch|) else |batch|;
      HandOver(batch, count);
      assert batch[..|batch|] == batch;
      ok := !fault.PublishFails? && !fault.PublishCommitFails?;
      if ok || fault == PublishCommitFails(true) {
        committed := session;
      }
    }

    /** Copies the oldest published rows to ClickHouse, marks all published rows, and commits. */
    method MaterializeClickhouse(fault: Fault) returns (ok: bool, rows: seq<Id>)
      requires session == committed
      modifies this`committed, this`session, this`inserted
      ensures Oldest(old(committed), WithStatus(old(committed), Published), MIRROR_LIMIT, rows)
      ensures ok <==> rows == [] || (!fault.InsertFails? && !fault.MirrorCommitFails?)
      ensures inserted == old(inserted) + if fault.InsertFails? then rows[..Min(fault.landed, |rows|)] else rows
      ensures committed == if ok || fault == MirrorCommitFails(true) then MirrorRows(old(committed)) else old(committed)
    {
      rows := SelectOldest(session, WithStatus(session, Published), MIRROR_LIMIT);
      if rows == [] {
        NothingToMirror(session, rows);
        return true, rows;
      }
      if fault.InsertFails? {
        inserted := inserted + rows[..Min(fault.landed, |rows|)];
        return false, rows;
      }
      inserted := inserted + rows;
      session := MirrorRows(session);
      ok := !fault.MirrorCommitFails?;
      if ok || fault == MirrorCommitFails(true) {
        committed := session;
      }
    }

    /**
     * One turn of the worker's loop. Leaving the connection block after an exception rolls the
     * session back. Every turn, whatever goes wrong in it, is a step of the outbox machine.
     */
    method RunCycle(now: int, fault: Fault) returns (ghost run: CycleRun)
      requires session == committed
      modifies this
      ensures CycleStep(old(MachineState()), run, MachineState())
      ensures session == committed
      ensures successfulCycles + failedCycles == old(successfulCycles + failedCycles) + 1
      ensures fault == NoFault ==> run.outcome == Completed && successfulCycles == old(successfulCycles) + 1
      ensures successfulCycles == old(successfulCycles) + 1 <==> run.outcome == Completed && fault != RefreshFails
    {
      var ok, batch := PublishPendingEvents(now, fault);
      var rows: seq<Id> := [];
      var mirrored := false;
      if ok {
        mirrored, rows := MaterializeClickhouse(fault);
      }
      run := CycleRun(now, batch, rows,
                      match fault
                      case PublishFails(after) => PublishRolledBack(Min(after, |batch|))
                      case PublishCommitFails(applied) =>
                        if applied then PublishCommitLost else PublishRolledBack(|batch|)
                      case InsertFails(landed) =>
                        if mirrored then Completed else MirrorRolledBack(rows[..Min(landed, |rows|)])
                      case MirrorCommitFails(applied) =>
                        if mirrored then Completed else if applied then MirrorCommitLost else MirrorRolledBack(rows)
                      case _ => Completed);
      session := committed;
      if mirrored && fault != RefreshFails {
        successfulCycles := successfulCycles + 1;
      } else {
        failedCycles := failedCycles + 1;
      }
    }
  }

  lemma NothingPublished(t: Table)
    ensures PublishRows(t, []) == t
  {
  }

  lemma OneMorePublished(t: Table, batch: seq<Id>, i: nat)
    requires i < |batch| && Distinct(batch) && batch[i] in t
    ensures PublishRows(t, batch[..i])[batch[i]] == t[batch[i]]
    ensures PublishRows(t, batch[..i + 1]) ==
            var e := t[batch[i]];
            PublishRows(t, batch[..i])[batch[i] := e.(status := Published, attempts := e.attempts + 1)]
  {
    assert batch[i] !in batch[..i];
    assert batch[..i + 1] == batch[..i] + [batch[i]];
  }

  lemma NothingToMirror(t: Table, rows: seq<Id>)
    requires Oldest(t, WithStatus(t, Published), MIRROR_LIMIT, rows) && rows == []
    ensures MirrorRows(t) == t
  {
    assert |WithStatus(t, Published)| == 0;
    assert forall id :: id in t ==> id !in WithStatus(t, Published);
  }
}
