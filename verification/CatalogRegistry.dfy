/**
 * packages/activepieces-catalog-sync/src/index.ts: the sync of the entry registry as operations on
 * the table of supabase/migrations/000046_stage16_17_activepieces_catalog_bridge.sql.
 */
module CatalogRegistry {
  import opened Prelude
  import opened CatalogNaming

  datatype Source = LexframePrivate | ActivepiecesBuiltin | External

  datatype Row = Row(
    tuple: EntryTuple,  // the second unique key of the table
    source: Source,
    sourcePath: string,
    sourceHash: string,
    status: EntryStatus,
    availabilityStatus: Availability,
    gatingReason: Option<GatingReason>,
    requiredConnectionType: Option<string>,
    riskLevel: RiskLevel,
    sourceImageTag: string,
    lastCheckedAt: int)

  /** The rows by module code, which is unique. */
  type Table = map<string, Row>

  /** The second unique constraint: package, version, type and name. */
  ghost predicate TuplesUnique(t: Table) {
    forall m, m' :: m in t && m' in t && t[m].tuple == t[m'].tuple ==> m == m'
  }

  // ----- The statements -----

  function MarkedRow(row: Row, now: int): Row {
    if row.source == ActivepiecesBuiltin then
      row.(status := Missing, availabilityStatus := BlockedByRuntime, gatingReason := Some(SourceMissing),
           lastCheckedAt := now)
    else row
  }

  function Marked(t: Table, now: int): Table {
    map m | m in t :: MarkedRow(t[m], now)
  }

  function RowOf(r: EntryRecord, now: int): Row {
    Row(TupleOf(r), ActivepiecesBuiltin, r.piece.path + "/" + r.entry.sourcePath, r.entry.sourceHash,
        r.policy.status, r.policy.availabilityStatus, r.policy.gatingReason, r.policy.requiredConnectionType,
        r.policy.riskLevel, r.sourceImageTag, now)
  }

  /** Another row already holds the record's tuple, so that inserting or updating fails. */
  predicate Conflict(t: Table, r: EntryRecord) {
    exists m :: m in t && m != r.moduleCode && t[m].tuple == TupleOf(r)
  }

  function UpsertAll(t: Table, records: seq<EntryRecord>, now: int): Table {
    if records == [] then t
    else
      var last := records[|records| - 1];
      UpsertAll(t, records[..|records| - 1], now)[last.moduleCode := RowOf(last, now)]
  }

  /** The `i`-th upsert meets a conflict on the table that the upserts before it left. */
  ghost predicate Fails(t: Table, records: seq<EntryRecord>, i: nat, now: int)
    requires i < |records|
  {
    Conflict(UpsertAll(t, records[..i], now), records[i])
  }

  /** No statement of the sync fails. */
  ghost predicate AllUpsertsSucceed(t: Table, records: seq<EntryRecord>, now: int) {
    forall i :: 0 <= i < |records| ==> !Fails(t, records, i, now)
  }

  class ActionRegistry {
    var rows: Table

    constructor (initial: Table)
      ensures rows == initial
    {
      rows := initial;
    }

    method MarkExistingEntriesMissing(now: int)
      modifies this
      ensures rows == Marked(old(rows), now)
    {
      rows := Marked(rows, now);
    }

    /**
     * `insert ... on conflict (module_code) do update`: fails exactly when the tuple is held under another
     * code, and otherwise writes one row, so that the second key of the table stays unique.
     */
    method UpsertEntry(r: EntryRecord, now: int) returns (ok: bool)
      modifies this
      ensures ok <==> forall m :: m in old(rows) && old(rows)[m].tuple == TupleOf(r) ==> m == r.moduleCode
      ensures !ok ==> rows == old(rows)
      ensures ok ==> r.moduleCode in rows && rows[r.moduleCode] == RowOf(r, now)
      ensures rows - {r.moduleCode} == old(rows) - {r.moduleCode}
      ensures TuplesUnique(old(rows)) ==> TuplesUnique(rows)
      ensures ok && TuplesUnique(old(rows)) ==>
                forall m :: m in rows && rows[m].tuple == TupleOf(r) ==> m == r.moduleCode
    {
      ok := !Conflict(rows, r);
      if ok {
        if TuplesUnique(rows) {
          UpsertKeepsTuplesUnique(rows, r, now);
        }
        rows := rows[r.moduleCode := RowOf(r, now)];
      }
    }

    /** The whole transaction: the first statement that fails undoes all of it. */
    method Sync(records: seq<EntryRecord>, now: int) returns (ok: bool)
      modifies this
      ensures ok <==> AllUpsertsSucceed(Marked(old(rows), now), records, now)
      ensures rows == if ok then UpsertAll(Marked(old(rows), now), records, now) else old(rows)
    {
      var before := rows;
      MarkExistingEntriesMissing(now);
      ghost var marked := rows;
      for i := 0 to |records|
        invariant before == old(rows)
        invariant rows == UpsertAll(marked, records[..i], now)
        invariant AllUpsertsSucceed(marked, records[..i], now)
      {
        ghost var current := rows;
        ok := UpsertEntry(records[i], now);
        NextUpsert(marked, records, i, now);
        if !ok {
          assert Fails(marked, records, i, now);
          rows := before;
          return;
        }
        Rewritten(current, rows, records[i], now);
        NextRow(marked, records, i, now);
      }
      assert records[..|records|] == records;
      ok := true;
    }
  }

  lemma NextRow(t: Table, records: seq<EntryRecord>, i: nat, now: int)
    requires i < |records|
    ensures UpsertAll(t, records[..i + 1], now) ==
            UpsertAll(t, records[..i], now)[records[i].moduleCode := RowOf(records[i], now)]
  {
    assert records[..i + 1][..i] == records[..i];
  }

  lemma NextUpsert(t: Table, records: seq<EntryRecord>, i: nat, now: int)
    requires i < |records| && AllUpsertsSucceed(t, records[..i], now)
    ensures AllUpsertsSucceed(t, records[..i + 1], now) <==> !Fails(t, records, i, now)
  {
    FailsInPrefix(t, records, i, now);
    FailsInPrefix(t, records, i + 1, now);
  }

  lemma FailsInPrefix(t: Table, records: seq<EntryRecord>, n: nat, now: int)
    requires n <= |records|
    ensures forall i :: 0 <= i < n ==> Fails(t, records[..n], i, now) == Fails(t, records, i, now)
  {
    forall i | 0 <= i < n
      ensures Fails(t, records[..n], i, now) == Fails(t, records, i, now)
    {
      assert records[..n][..i] == records[..i];
    }
  }

  /** Writing one row leaves no choice about the table. */
  lemma Rewritten(t: Table, t': Table, r: EntryRecord, now: int)
    requires r.moduleCode in t' && t'[r.moduleCode] == RowOf(r, now)
    requires t' - {r.moduleCode} == t - {r.moduleCode}
    ensures t' == t[r.moduleCode := RowOf(r, now)]
  {
    forall m | m != r.moduleCode
      ensures m in t' <==> m in t
      ensures m in t ==> t'[m] == t[m]
    {
      assert m in t' <==> m in t' - {r.moduleCode};
      assert m in t <==> m in t - {r.moduleCode};
      if m in t {
        assert (t' - {r.moduleCode})[m] == (t - {r.moduleCode})[m];
      }
    }
  }

  // ----- What the table holds after a sync -----

  /** Records as the naming step builds them: no module code and no tuple twice. */
  ghost predicate Named(records: seq<EntryRecord>) {
    && (forall i, j :: 0 <= i < j < |records| ==> records[i].moduleCode != records[j].moduleCode)
    && (forall i, j :: 0 <= i < j < |records| ==> TupleOf(records[i]) != TupleOf(records[j]))
    && (forall i :: 0 <= i < |records| ==> records[i].policy.status != Missing)
  }

  lemma BuiltRecordsAreNamed(selected: seq<Selection>, records: seq<EntryRecord>, options: SyncOptions)
    requires AreRecords(selected, records, options)
    ensures Named(records)
  {
    forall i, j | 0 <= i < j < |records|
      ensures records[i].moduleCode != records[j].moduleCode && TupleOf(records[i]) != TupleOf(records[j])
    {
      NamesUnique(selected, records, options, i, j);
    }
    forall i | 0 <= i < |records|
      ensures records[i].policy.status != Missing
    {
      assert RecordedAt(selected, records, options, i);
    }
  }

  lemma {:induction false} UpsertAllAt(t: Table, records: seq<EntryRecord>, now: int, m: string)
    ensures m in UpsertAll(t, records, now) <==> m in t || m in ModuleCodes(records)
    ensures m in t && m !in ModuleCodes(records) ==> UpsertAll(t, records, now)[m] == t[m]
  {
    if records != [] {
      var front, last := records[..|records| - 1], records[|records| - 1];
      assert records == front + [last];
      OneMoreCode(front, last);
      UpsertAllAt(t, front, now, m);
    }
  }

  lemma {:induction false} UpsertAllRow(t: Table, records: seq<EntryRecord>, now: int, i: nat)
    requires Named(records) && i < |records|
    ensures records[i].moduleCode in UpsertAll(t, records, now)
    ensures UpsertAll(t, records, now)[records[i].moduleCode] == RowOf(records[i], now)
  {
    var n := |records| - 1;
    if i < n {
      PrefixNamed(records, n);
      UpsertAllRow(t, records[..n], now, i);
      assert records[..n][i] == records[i];
    }
  }

  lemma UpsertAllHolds(t: Table, records: seq<EntryRecord>, now: int)
    requires Named(records)
    ensures forall i :: 0 <= i < |records| ==>
              records[i].moduleCode in UpsertAll(t, records, now)
              && UpsertAll(t, records, now)[records[i].moduleCode] == RowOf(records[i], now)
    ensures forall m :: m !in ModuleCodes(records) ==>
              (m in UpsertAll(t, records, now) <==> m in t) && (m in t ==> UpsertAll(t, records, now)[m] == t[m])
    ensures forall m :: m in UpsertAll(t, records, now) ==> m in t || m in ModuleCodes(records)
  {
    forall m
      ensures m in UpsertAll(t, records, now) <==> m in t || m in ModuleCodes(records)
      ensures m in t && m !in ModuleCodes(records) ==> UpsertAll(t, records, now)[m] == t[m]
    {
      UpsertAllAt(t, records, now, m);
    }
    forall i | 0 <= i < |records|
      ensures records[i].moduleCode in UpsertAll(t, records, now)
      ensures UpsertAll(t, records, now)[records[i].moduleCode] == RowOf(records[i], now)
    {
      UpsertAllRow(t, records, now, i);
    }
  }

  /** Before the `i`-th upsert some row that no earlier upsert rewrites holds its tuple under another code. */
  ghost predicate Blocks(t: Table, records: seq<EntryRecord>, i: nat, m: string)
    requires i < |records|
  {
    && m in t && m != records[i].moduleCode && t[m].tuple == TupleOf(records[i])
    && m !in ModuleCodes(records[..i])
  }

  lemma PrefixNamed(records: seq<EntryRecord>, i: nat)
    requires Named(records) && i <= |records|
    ensures Named(records[..i])
  {
  }

  lemma ConflictIffBlocked(t: Table, records: seq<EntryRecord>, now: int, i: nat)
    requires Named(records) && i < |records|
    ensures Conflict(UpsertAll(t, records[..i], now), records[i]) <==> exists m :: Blocks(t, records, i, m)
  {
    var before := records[..i];
    PrefixNamed(records, i);
    UpsertAllHolds(t, before, now);
    var current := UpsertAll(t, before, now);
    forall m | m in ModuleCodes(before)
      ensures m in current && current[m].tuple != TupleOf(records[i])
    {
      var j :| 0 <= j < |before| && before[j].moduleCode == m;
      assert TupleOf(records[j]) != TupleOf(records[i]);
    }
    if Conflict(current, records[i]) {
      var m :| m in current && m != records[i].moduleCode && current[m].tuple == TupleOf(records[i]);
      assert Blocks(t, records, i, m);
    }
    if m :| Blocks(t, records, i, m) {
      assert current[m] == t[m];
    }
  }

  /** A row of the stored table stands in the way of the sync. */
  ghost predicate Obstructed(t: Table, records: seq<EntryRecord>) {
    exists i, m :: 0 <= i < |records| && Blocks(t, records, i, m)
  }

  /**
   * A sync commits exactly when no stored row keeps the tuple of a record under another module code
   * until that record's turn. The condition is on the table as it was stored: marking rows as
   * missing does not free their tuples.
   */
  lemma SyncCommits(t: Table, records: seq<EntryRecord>, now: int)
    requires Named(records)
    ensures AllUpsertsSucceed(Marked(t, now), records, now) <==> !Obstructed(t, records)
  {
    forall i | 0 <= i < |records|
      ensures Fails(Marked(t, now), records, i, now) <==> exists m :: Blocks(t, records, i, m)
    {
      ConflictIffBlocked(Marked(t, now), records, now, i);
      assert forall m :: Blocks(Marked(t, now), records, i, m) <==> Blocks(t, records, i, m);
    }
    if i, m :| 0 <= i < |records| && Blocks(t, records, i, m) {
      assert Fails(Marked(t, now), records, i, now);
    }
  }

  /** The built-in rows that are present in the current source. */
  function BuiltinView(t: Table): Table {
    map m | m in t && t[m].source == ActivepiecesBuiltin && t[m].status != Missing :: t[m]
  }

  /** The generated records by module code. */
  function RecordView(records: seq<EntryRecord>, now: int): Table {
    UpsertAll(map[], records, now)
  }

  /** The record with a module code. */
  ghost function RecordFor(records: seq<EntryRecord>, m: string): (r: EntryRecord)
    requires m in ModuleCodes(records)
    ensures r.moduleCode == m && r in records
  {
    var i :| 0 <= i < |records| && records[i].moduleCode == m;
    records[i]
  }

  /** The row under one module code after a sync. */
  lemma AfterUpserts(t: Table, records: seq<EntryRecord>, now: int, m: string)
    requires Named(records)
    ensures m in UpsertAll(t, records, now) <==> m in t || m in ModuleCodes(records)
    ensures m in UpsertAll(t, records, now) ==>
              UpsertAll(t, records, now)[m] ==
              if m in ModuleCodes(records) then RowOf(RecordFor(records, m), now) else t[m]
  {
    UpsertAllHolds(t, records, now);
    if m in ModuleCodes(records) {
      var r := RecordFor(records, m);
      var i :| 0 <= i < |records| && records[i] == r;
      assert UpsertAll(t, records, now)[records[i].moduleCode] == RowOf(records[i], now);
    }
  }

  lemma RecordIsPresent(records: seq<EntryRecord>, m: string, now: int)
    requires Named(records) && m in ModuleCodes(records)
    ensures RowOf(RecordFor(records, m), now).status != Missing
  {
  }

  /**
   * A committed sync replaces the built-in view: the present built-in rows are the generated
   * records and nothing else, every other built-in row is kept as missing, and rows of other sources
   * are untouched unless a record takes over their module code.
   */
  lemma SyncReplacesBuiltinView(t: Table, records: seq<EntryRecord>, now: int)
    requires Named(records)
    ensures var t' := UpsertAll(Marked(t, now), records, now);
            && BuiltinView(t') == RecordView(records, now)
            && t'.Keys == t.Keys + ModuleCodes(records)
            && forall m :: m in t && m !in ModuleCodes(records) ==> t'[m] == MarkedRow(t[m], now)
  {
    forall m
      ensures var t' := UpsertAll(Marked(t, now), records, now);
              && (m in t' <==> m in t || m in ModuleCodes(records))
              && (m in t && m !in ModuleCodes(records) ==> t'[m] == MarkedRow(t[m], now))
      ensures m in BuiltinView(UpsertAll(Marked(t, now), records, now)) <==> m in RecordView(records, now)
      ensures m in RecordView(records, now) ==>
                UpsertAll(Marked(t, now), records, now)[m] == RecordView(records, now)[m]
    {
      AfterUpserts(Marked(t, now), records, now, m);
      AfterUpserts(map[], records, now, m);
      if m in ModuleCodes(records) {
        RecordIsPresent(records, m, now);
      }
    }
  }

  lemma UpsertKeepsTuplesUnique(t: Table, r: EntryRecord, now: int)
    requires TuplesUnique(t) && !Conflict(t, r)
    ensures TuplesUnique(t[r.moduleCode := RowOf(r, now)])
  {
  }

  /** The tuples stay unique through every sync. */
  lemma {:induction false} SyncKeepsTuplesUnique(t: Table, records: seq<EntryRecord>, now: int)
    requires TuplesUnique(t) && AllUpsertsSucceed(t, records, now)
    ensures TuplesUnique(UpsertAll(t, records, now))
  {
    if records != [] {
      var n := |records| - 1;
      FailsInPrefix(t, records, n, now);
      SyncKeepsTuplesUnique(t, records[..n], now);
      assert !Fails(t, records, n, now);
      UpsertKeepsTuplesUnique(UpsertAll(t, records[..n], now), records[n], now);
    }
  }

  /** The same rows, checked at another time. */
  function Rechecked(t: Table, now: int): Table {
    map m | m in t :: if t[m].source == ActivepiecesBuiltin then t[m].(lastCheckedAt := now) else t[m]
  }

  // ----- One sync after another -----

  /** A record of the second report has the tuple of one of the first under another module code, not yet rewritten. */
  ghost predicate Renamed(first: seq<EntryRecord>, second: seq<EntryRecord>, j: nat, i: nat)
    requires j < |first| && i < |second|
  {
    && TupleOf(first[j]) == TupleOf(second[i]) && first[j].moduleCode != second[i].moduleCode
    && first[j].moduleCode !in ModuleCodes(second[..i])
  }

  /** A row that the first sync did not write stands in the way of the second one. */
  ghost predicate OldRowBlocks(t: Table, first: seq<EntryRecord>, second: seq<EntryRecord>, i: nat, m: string)
    requires i < |second|
  {
    m !in ModuleCodes(first) && Blocks(t, second, i, m)
  }

  lemma BlocksAfterSync(t: Table, first: seq<EntryRecord>, second: seq<EntryRecord>, now: int, i: nat, m: string)
    requires Named(first) && i < |second|
    ensures Blocks(UpsertAll(Marked(t, now), first, now), second, i, m) <==>
            || OldRowBlocks(t, first, second, i, m)
            || exists j :: 0 <= j < |first| && first[j].moduleCode == m && Renamed(first, second, j, i)
  {
    var t' := UpsertAll(Marked(t, now), first, now);
    UpsertAllAt(Marked(t, now), first, now, m);
    forall j | 0 <= j < |first| && first[j].moduleCode == m
      ensures Blocks(t', second, i, m) <==> Renamed(first, second, j, i)
    {
      UpsertAllRow(Marked(t, now), first, now, j);
    }
    if m in ModuleCodes(first) {
      var j :| 0 <= j < |first| && first[j].moduleCode == m;
      assert Blocks(t', second, i, m) <==> Renamed(first, second, j, i);
    }
  }

  /**
   * When the next sync commits, in terms of the table before both and the two lists of records:
   * exactly when no untouched row is in the way and no entry changes its module code while the
   * row under the old code still stands.
   */
  lemma NextSyncCommits(t: Table, first: seq<EntryRecord>, second: seq<EntryRecord>, now: int, later: int)
    requires Named(first) && Named(second)
    ensures AllUpsertsSucceed(Marked(UpsertAll(Marked(t, now), first, now), later), second, later) <==>
            && (forall i, m :: 0 <= i < |second| ==> !OldRowBlocks(t, first, second, i, m))
            && (forall i, j :: 0 <= i < |second| && 0 <= j < |first| ==> !Renamed(first, second, j, i))
  {
    var t' := UpsertAll(Marked(t, now), first, now);
    SyncCommits(t', second, later);
    forall i, m | 0 <= i < |second|
      ensures Blocks(t', second, i, m) <==>
              || OldRowBlocks(t, first, second, i, m)
              || exists j :: 0 <= j < |first| && first[j].moduleCode == m && Renamed(first, second, j, i)
    {
      BlocksAfterSync(t, first, second, now, i, m);
    }
    if i, j :| 0 <= i < |second| && 0 <= j < |first| && Renamed(first, second, j, i) {
      assert Blocks(t', second, i, first[j].moduleCode);
    }
  }

  /** Repeating a sync with the same report commits and changes nothing but the time of the check. */
  lemma SecondSync(t: Table, records: seq<EntryRecord>, now: int, later: int)
    requires Named(records) && !Obstructed(t, records)
    ensures var t' := UpsertAll(Marked(t, now), records, now);
            && AllUpsertsSucceed(Marked(t', later), records, later)
            && UpsertAll(Marked(t', later), records, later) == Rechecked(t', later)
  {
    NextSyncCommits(t, records, records, now, later);
    SecondRows(t, records, now, later);
  }

  /** The records of a report that only gained entries at its end start with the records of the shorter one. */
  lemma {:induction false} GrownRecords(selected: seq<Selection>, more: seq<Selection>, first: seq<EntryRecord>,
                                        second: seq<EntryRecord>, options: SyncOptions)
    requires AreRecords(selected, first, options) && AreRecords(selected + more, second, options)
    ensures first <= second
  {
    var n := |selected|;
    var front := second[..n];
    forall i | 0 <= i < n
      ensures RecordedAt(selected, front, options, i)
    {
      assert RecordedAt(selected + more, second, options, i);
      assert front[..i] == second[..i] && (selected + more)[i] == selected[i];
    }
    RecordsUnique(selected, first, front, options);
  }

  /**
   * A report that gained entries at its end keeps every module code of the last one, and its sync
   * commits exactly when it would have committed on the table before the last one.
   */
  lemma GrownReportSync(t: Table, selected: seq<Selection>, more: seq<Selection>, first: seq<EntryRecord>,
                        second: seq<EntryRecord>, options: SyncOptions, now: int, later: int)
    requires AreRecords(selected, first, options) && AreRecords(selected + more, second, options)
    requires !Obstructed(t, first)
    ensures forall i :: 0 <= i < |first| ==> second[i].moduleCode == first[i].moduleCode
    ensures AllUpsertsSucceed(Marked(UpsertAll(Marked(t, now), first, now), later), second, later) <==>
            !Obstructed(t, second)
  {
    GrownRecords(selected, more, first, second, options);
    BuiltRecordsAreNamed(selected, first, options);
    BuiltRecordsAreNamed(selected + more, second, options);
    NextSyncCommits(t, first, second, now, later);
    GrownObstructed(t, first, second);
  }

  lemma GrownObstructed(t: Table, first: seq<EntryRecord>, second: seq<EntryRecord>)
    requires first <= second && Named(second) && !Obstructed(t, first)
    ensures forall i, j :: 0 <= i < |second| && 0 <= j < |first| ==> !Renamed(first, second, j, i)
    ensures Obstructed(t, second) <==> exists i, m :: 0 <= i < |second| && OldRowBlocks(t, first, second, i, m)
  {
    forall i, j | 0 <= i < |second| && 0 <= j < |first|
      ensures !Renamed(first, second, j, i)
    {
      assert first[j] == second[j];
    }
    forall i, m | 0 <= i < |second|
      ensures Blocks(t, second, i, m) <==> OldRowBlocks(t, first, second, i, m)
    {
      GrownBlocks(t, first, second, i, m);
    }
  }

  lemma GrownBlocks(t: Table, first: seq<EntryRecord>, second: seq<EntryRecord>, i: nat, m: string)
    requires first <= second && !Obstructed(t, first) && i < |second|
    ensures Blocks(t, second, i, m) <==> OldRowBlocks(t, first, second, i, m)
  {
    if Blocks(t, second, i, m) {
      if i < |first| {
        assert second[..i] == first[..i];
        assert Blocks(t, first, i, m);
        assert false;
      } else {
        assert ModuleCodes(first) <= ModuleCodes(second[..i]) by {
          assert forall j :: 0 <= j < |first| ==> second[..i][j] == first[j];
        }
      }
    }
  }

  lemma SecondRows(t: Table, records: seq<EntryRecord>, now: int, later: int)
    requires Named(records)
    ensures var t' := UpsertAll(Marked(t, now), records, now);
            UpsertAll(Marked(t', later), records, later) == Rechecked(t', later)
  {
    var t' := UpsertAll(Marked(t, now), records, now);
    forall m
      ensures m in UpsertAll(Marked(t', later), records, later) <==> m in t'
      ensures m in t' ==> UpsertAll(Marked(t', later), records, later)[m] == Rechecked(t', later)[m]
    {
      AfterUpserts(Marked(t, now), records, now, m);
      AfterUpserts(Marked(t', later), records, later, m);
    }
  }

  lemma FirstName(prefix: string, base: string, separator: string, taken: set<string>, name: string)
    requires FirstFree(prefix, base, separator, taken, name) && prefix + base !in taken
    ensures name == base
  {
    var k: nat :| IsFirstFree(prefix, base, separator, taken, k) && name == Candidate(base, separator, k);
    assert prefix + Candidate(base, separator, 1) !in taken;
  }

  /** The records of two entries whose packages differ but whose slug, type and name agree. */
  lemma TwinRecords(s1: Selection, s2: Selection, records: seq<EntryRecord>, options: SyncOptions)
    requires AreRecords([s1, s2], records, options)
    requires s1.piece.slug == s2.piece.slug && s1.entry.entryType == s2.entry.entryType
    requires s1.entry.name == s2.entry.name
    requires EntryKeyPrefix(s1.piece, s1.entry.entryType) + EntryBase(s1.entry) !=
             EntryKeyPrefix(s2.piece, s2.entry.entryType) + EntryBase(s2.entry)
    ensures records[0].entryName == records[1].entryName == EntryBase(s1.entry)
    ensures records[0].moduleCode == ModuleBase(s1.piece, s1.entry.entryType, EntryBase(s1.entry))
    ensures FirstFree("", ModuleBase(s1.piece, s1.entry.entryType, EntryBase(s1.entry)), ".",
                      {records[0].moduleCode}, records[1].moduleCode)
  {
    var base := EntryBase(s1.entry);
    assert RecordedAt([s1, s2], records, options, 0) && RecordedAt([s1, s2], records, options, 1);
    FirstName(EntryKeyPrefix(s1.piece, s1.entry.entryType), base, "_", EntryKeys(records[..0]), records[0].entryName);
    FirstName("", ModuleBase(s1.piece, s1.entry.entryType, base), ".", ModuleCodes(records[..0]),
              records[0].moduleCode);
    assert records[..1] == [] + [records[0]];
    OneMoreKey([], records[0]);
    OneMoreCode([], records[0]);
    assert EntryKeys([]) == {} && ModuleCodes([]) == {};
    FirstName(EntryKeyPrefix(s2.piece, s2.entry.entryType), base, "_", EntryKeys(records[..1]), records[1].entryName);
  }

  /**
   * A report that no longer lists the first of two such entries cannot be synced: the other entry
   * takes over the shorter module code while the row under its old code still holds its tuple.
   */
  lemma DroppedTwinBlocks(t: Table, s1: Selection, s2: Selection, first: seq<EntryRecord>, second: seq<EntryRecord>,
                          options: SyncOptions, now: int, later: int)
    requires AreRecords([s1, s2], first, options) && AreRecords([s2], second, options)
    requires s1.piece.slug == s2.piece.slug && s1.entry.entryType == s2.entry.entryType
    requires s1.entry.name == s2.entry.name
    requires EntryKeyPrefix(s1.piece, s1.entry.entryType) + EntryBase(s1.entry) !=
             EntryKeyPrefix(s2.piece, s2.entry.entryType) + EntryBase(s2.entry)
    ensures second[0].moduleCode == first[0].moduleCode
    ensures !AllUpsertsSucceed(Marked(UpsertAll(Marked(t, now), first, now), later), second, later)
  {
    BuiltRecordsAreNamed([s1, s2], first, options);
    BuiltRecordsAreNamed([s2], second, options);
    TwinRecords(s1, s2, first, options);
    assert RecordedAt([s1, s2], first, options, 1) && RecordedAt([s2], second, options, 0);
    assert EntryKeys(second[..0]) == {} && ModuleCodes(second[..0]) == {};
    var base := EntryBase(s2.entry);
    FirstName(EntryKeyPrefix(s2.piece, s2.entry.entryType), base, "_", {}, second[0].entryName);
    FirstName("", ModuleBase(s2.piece, s2.entry.entryType, base), ".", {}, second[0].moduleCode);
    assert Renamed(first, second, 1, 0);
    NextSyncCommits(t, first, second, now, later);
  }

  /** Building the records of a report and syncing them. */
  method SyncCatalog(registry: ActionRegistry, pieces: seq<Piece>, options: SyncOptions, now: int)
    returns (records: seq<EntryRecord>, ok: bool)
    modifies registry
    ensures AreRecords(Selected(pieces, options), records, options)
    ensures ok <==> !Obstructed(old(registry.rows), records)
    ensures registry.rows ==
            if ok then UpsertAll(Marked(old(registry.rows), now), records, now) else old(registry.rows)
  {
    records := BuildEntryRecords(pieces, options);
    BuiltRecordsAreNamed(Selected(pieces, options), records, options);
    SyncCommits(registry.rows, records, now);
    ok := registry.Sync(records, now);
  }


  // ----- The rows after a sync, column by column -----

  /** The row that a record leaves. */
  ghost predicate RowOfRecord(r: EntryRecord, now: int, row: Row) {
    && row.tuple.packageName == r.piece.packageName && row.tuple.packageVersion == r.piece.packageVersion
    && row.tuple.entryType == r.entry.entryType && row.tuple.entryName == r.entryName
    && row.source == ActivepiecesBuiltin && row.sourcePath == r.piece.path + "/" + r.entry.sourcePath
    && row.sourceHash == r.entry.sourceHash
    && row.status == r.policy.status && row.availabilityStatus == r.policy.availabilityStatus
    && row.gatingReason == r.policy.gatingReason
    && row.requiredConnectionType == r.policy.requiredConnectionType && row.riskLevel == r.policy.riskLevel
    && row.sourceImageTag == r.sourceImageTag && row.lastCheckedAt == now
  }

  /** What becomes of a row that no record rewrites. */
  ghost predicate LeftRow(before: Row, now: int, after: Row) {
    if before.source == ActivepiecesBuiltin then
      && after.status == Missing && after.availabilityStatus == BlockedByRuntime
      && after.gatingReason == Some(SourceMissing) && after.lastCheckedAt == now
      && after.tuple == before.tuple && after.source == before.source && after.sourcePath == before.sourcePath
      && after.sourceHash == before.sourceHash && after.requiredConnectionType == before.requiredConnectionType
      && after.riskLevel == before.riskLevel && after.sourceImageTag == before.sourceImageTag
    else
      after == before
  }

  /** Every row of the table after the statements of a sync, column by column. */
  lemma SyncedRows(t: Table, records: seq<EntryRecord>, now: int)
    requires Named(records)
    ensures var t' := UpsertAll(Marked(t, now), records, now);
            && (forall i :: 0 <= i < |records| ==>
                  records[i].moduleCode in t' && RowOfRecord(records[i], now, t'[records[i].moduleCode]))
            && forall m :: m in t' && (forall i :: 0 <= i < |records| ==> records[i].moduleCode != m) ==>
                 m in t && LeftRow(t[m], now, t'[m])
  {
    var t' := UpsertAll(Marked(t, now), records, now);
    forall i | 0 <= i < |records|
      ensures records[i].moduleCode in t' && RowOfRecord(records[i], now, t'[records[i].moduleCode])
    {
      UpsertAllRow(Marked(t, now), records, now, i);
    }
    forall m | m in t' && forall i :: 0 <= i < |records| ==> records[i].moduleCode != m
      ensures m in t && LeftRow(t[m], now, t'[m])
    {
      UpsertAllAt(Marked(t, now), records, now, m);
    }
  }
}
