/** packages/activepieces-catalog-sync/src/index.ts: building the entry records with unique names. */
module CatalogNaming {
  import opened Prelude
  import opened Text
  import opened EntryNames

  datatype EntryType = ActionEntry | TriggerEntry

  function TypeText(t: EntryType): string {
    match t case ActionEntry => "action" case TriggerEntry => "trigger"
  }

  datatype Risk =
    | SafeByDefault
    | SafeWithWorkspacePolicy
    | RequiresHumanApproval
    | RequiresAdminRole
    | AdvancedOnly
    | BlockedByDefault
    | ForbiddenInProduction
    | UnknownRisk

  datatype Exposure = AllUsers | WorkspacePolicy | ApprovalRequired | AdvancedUsers | AdminOnly | Hidden | Blocked

  datatype InventoryEntry = InventoryEntry(entryType: EntryType, name: string, sourcePath: string, sourceHash: string)

  datatype Piece = Piece(
    packageName: string,
    packageVersion: string,
    slug: string,
    path: string,
    authType: string,
    risk: Risk,
    exposure: Exposure,
    actionEntries: seq<InventoryEntry>,
    triggerEntries: seq<InventoryEntry>)

  datatype SyncOptions = SyncOptions(sourceImageTag: string, maxEntriesPerPiece: Option<int>)

  datatype EntryStatus = Active | BlockedEntry | Deprecated | Missing

  datatype RiskLevel = Low | Medium | High | Critical

  datatype Availability =
    | Available
    | AvailableWithWarnings
    | MissingConnection
    | BlockedByRole
    | BlockedByDataPolicy
    | BlockedByRuntime

  /** The gating reasons; each stands for its code and the text shown with it. */
  datatype GatingReason =
    | TriggerImportReadOnly
    | AiRouteRequiresGateway
    | PieceForbiddenInProduction
    | AdvancedOrAdminOnly
    | PieceNeedsReview
    | ConnectionRequired
    | ApprovalRecommended
    | WorkspacePolicyRequired
    | SourceMissing

  datatype Policy = Policy(
    status: EntryStatus,
    availabilityStatus: Availability,
    gatingReason: Option<GatingReason>,
    requiredConnectionType: Option<string>,
    riskLevel: RiskLevel)

  datatype EntryRecord = EntryRecord(
    piece: Piece,
    entry: InventoryEntry,
    entryName: string,
    moduleCode: string,
    policy: Policy,
    sourceImageTag: string)

  // ----- The policy of an entry -----

  function RiskLevelFor(risk: Risk): RiskLevel {
    match risk
    case SafeByDefault => Low
    case SafeWithWorkspacePolicy => Medium
    case BlockedByDefault => Critical
    case ForbiddenInProduction => Critical
    case _ => High
  }

  function PolicyFor(piece: Piece, t: EntryType): (policy: Policy)
    ensures policy.status == Active || policy.status == BlockedEntry
  {
    var level := RiskLevelFor(piece.risk);
    if t == TriggerEntry then
      Policy(BlockedEntry, BlockedByRuntime, Some(TriggerImportReadOnly), None, level)
    else if piece.risk == BlockedByDefault then
      Policy(BlockedEntry, BlockedByDataPolicy, Some(AiRouteRequiresGateway), None, Critical)
    else if piece.risk == ForbiddenInProduction then
      Policy(BlockedEntry, BlockedByDataPolicy, Some(PieceForbiddenInProduction), None, Critical)
    else if piece.exposure == AdminOnly || piece.exposure == AdvancedUsers then
      Policy(BlockedEntry, BlockedByRole, Some(AdvancedOrAdminOnly), None, level)
    else if piece.exposure == Hidden || piece.exposure == Blocked then
      Policy(BlockedEntry, BlockedByRuntime, Some(PieceNeedsReview), None, level)
    else if piece.authType != "none" then
      Policy(Active, MissingConnection, Some(ConnectionRequired),
             Some(piece.slug + ":" + piece.authType), level)
    else if piece.exposure == ApprovalRequired then
      Policy(Active, AvailableWithWarnings, Some(ApprovalRecommended), None, level)
    else if piece.exposure == WorkspacePolicy then
      Policy(Active, AvailableWithWarnings, Some(WorkspacePolicyRequired), None, level)
    else
      Policy(Active, Available, None, None, level)
  }

  // ----- Candidates for a unique name -----

  /** The `k`-th name tried: the base itself, then the base with the suffixes 2, 3, ... */
  function Candidate(base: string, separator: string, k: nat): string {
    if k < 2 then base else base + separator + Decimal(k)
  }

  lemma CandidateInjective(prefix: string, base: string, separator: string, j: nat, k: nat)
    requires 1 <= j && 1 <= k && separator != ""
    requires prefix + Candidate(base, separator, j) == prefix + Candidate(base, separator, k)
    ensures j == k
  {
    var x, y := Candidate(base, separator, j), Candidate(base, separator, k);
    assert x == (prefix + x)[|prefix|..] && y == (prefix + y)[|prefix|..];
    if j >= 2 && k >= 2 {
      assert Decimal(j) == x[|base + separator|..] && Decimal(k) == y[|base + separator|..];
      DecimalInjective(j, k);
    }
  }

  /** Different suffixes make different keys, so a search cannot come back to a key. */
  lemma NotTried(prefix: string, base: string, separator: string, tried: set<string>, k: nat)
    requires 1 <= k && separator != ""
    requires forall key :: key in tried ==>
               exists j: nat :: 1 <= j < k && key == prefix + Candidate(base, separator, j)
    ensures prefix + Candidate(base, separator, k) !in tried
  {
    if prefix + Candidate(base, separator, k) in tried {
      var j: nat :| 1 <= j < k && prefix + Candidate(base, separator, k) == prefix + Candidate(base, separator, j);
      CandidateInjective(prefix, base, separator, j, k);
    }
  }

  /** The `k`-th candidate is the first whose key is not taken. */
  ghost predicate IsFirstFree(prefix: string, base: string, separator: string, taken: set<string>, k: nat) {
    && 1 <= k
    && prefix + Candidate(base, separator, k) !in taken
    && forall j :: 1 <= j < k ==> prefix + Candidate(base, separator, j) in taken
  }

  ghost predicate FirstFree(prefix: string, base: string, separator: string, taken: set<string>, name: string) {
    exists k: nat :: IsFirstFree(prefix, base, separator, taken, k) && name == Candidate(base, separator, k)
  }

  lemma FirstFreeUnique(prefix: string, base: string, separator: string, taken: set<string>, x: string, y: string)
    requires FirstFree(prefix, base, separator, taken, x) && FirstFree(prefix, base, separator, taken, y)
    ensures x == y
  {
    var i: nat :| IsFirstFree(prefix, base, separator, taken, i) && x == Candidate(base, separator, i);
    var j: nat :| IsFirstFree(prefix, base, separator, taken, j) && y == Candidate(base, separator, j);
    assert i == j;
  }

  // ----- Entries and keys -----

  /** The entries of a piece that are taken, as `slice(0, max)` does; a maximum of zero means no maximum. */
  function SelectedOf(piece: Piece, options: SyncOptions): seq<InventoryEntry> {
    var all := piece.actionEntries + piece.triggerEntries;
    var n := OrElse(options.maxEntriesPerPiece, 0);
    if n == 0 then all
    else if n > 0 then (if n < |all| then all[..n] else all)
    else if |all| + n > 0 then all[..|all| + n] else []
  }

  datatype Selection = Selection(piece: Piece, entry: InventoryEntry)

  /** The selected entries of one piece, paired with the piece. */
  function Paired(piece: Piece, entries: seq<InventoryEntry>): (r: seq<Selection>)
    ensures |r| == |entries| && forall i :: 0 <= i < |r| ==> r[i] == Selection(piece, entries[i])
  {
    seq(|entries|, i requires 0 <= i < |entries| => Selection(piece, entries[i]))
  }

  /** All selected entries of a report, in order. */
  function Selected(pieces: seq<Piece>, options: SyncOptions): seq<Selection> {
    if pieces == [] then []
    else
      var last := pieces[|pieces| - 1];
      Selected(pieces[..|pieces| - 1], options) + Paired(last, SelectedOf(last, options))
  }

  function EntryKeyPrefix(piece: Piece, t: EntryType): string {
    piece.packageName + "|" + piece.packageVersion + "|" + TypeText(t) + "|"
  }

  function EntryKey(r: EntryRecord): string {
    EntryKeyPrefix(r.piece, r.entry.entryType) + r.entryName
  }

  function EntryBase(entry: InventoryEntry): string {
    if entry.name != "" then entry.name else TypeText(entry.entryType)
  }

  function ModuleBase(piece: Piece, t: EntryType, entryName: string): string {
    "ap." + piece.slug + "." + TypeText(t) + "." + entryName
  }

  function EntryKeys(records: seq<EntryRecord>): set<string> {
    set i | 0 <= i < |records| :: EntryKey(records[i])
  }

  function ModuleCodes(records: seq<EntryRecord>): set<string> {
    set i | 0 <= i < |records| :: records[i].moduleCode
  }

  /** The two Sets that every allocation reads and extends. */
  class NameAllocator {
    var seenEntryKeys: set<string>
    var seenModuleCodes: set<string>

    constructor ()
      ensures seenEntryKeys == {} && seenModuleCodes == {}
    {
      seenEntryKeys, seenModuleCodes := {}, {};
    }

    method UniqueEntryName(piece: Piece, entry: InventoryEntry) returns (candidate: string)
      modifies this`seenEntryKeys
      ensures FirstFree(EntryKeyPrefix(piece, entry.entryType), EntryBase(entry), "_", old(seenEntryKeys), candidate)
      ensures seenEntryKeys == old(seenEntryKeys) + {EntryKeyPrefix(piece, entry.entryType) + candidate}
    {
      var prefix, base := EntryKeyPrefix(piece, entry.entryType), EntryBase(entry);
      candidate := base;
      var suffix := 2;
      ghost var tried: set<string> := {};
      while prefix + candidate in seenEntryKeys
        invariant seenEntryKeys == old(seenEntryKeys)
        invariant suffix >= 2 && candidate == Candidate(base, "_", suffix - 1)
        invariant forall j :: 1 <= j < suffix - 1 ==> prefix + Candidate(base, "_", j) in seenEntryKeys
        invariant forall key :: key in tried ==>
                    exists j: nat :: 1 <= j < suffix - 1 && key == prefix + Candidate(base, "_", j)
        decreases seenEntryKeys - tried
      {
        NotTried(prefix, base, "_", tried, suffix - 1);
        tried := tried + {prefix + candidate};
        candidate := base + "_" + Decimal(suffix);
        suffix := suffix + 1;
      }
      assert IsFirstFree(prefix, base, "_", seenEntryKeys, suffix - 1);
      seenEntryKeys := seenEntryKeys + {prefix + candidate};
    }

    method UniqueModuleCode(base: string) returns (candidate: string)
      modifies this`seenModuleCodes
      ensures FirstFree("", base, ".", old(seenModuleCodes), candidate)
      ensures seenModuleCodes == old(seenModuleCodes) + {candidate}
    {
      candidate := base;
      var suffix := 2;
      ghost var tried: set<string> := {};
      while candidate in seenModuleCodes
        invariant seenModuleCodes == old(seenModuleCodes)
        invariant suffix >= 2 && candidate == Candidate(base, ".", suffix - 1)
        invariant forall j :: 1 <= j < suffix - 1 ==> Candidate(base, ".", j) in seenModuleCodes
        invariant forall key :: key in tried ==>
                    exists j: nat :: 1 <= j < suffix - 1 && key == "" + Candidate(base, ".", j)
        decreases seenModuleCodes - tried
      {
        assert "" + candidate == candidate;
        NotTried("", base, ".", tried, suffix - 1);
        tried := tried + {candidate};
        candidate := base + "." + Decimal(suffix);
        suffix := suffix + 1;
      }
      forall j | 1 <= j <= suffix - 1
        ensures "" + Candidate(base, ".", j) == Candidate(base, ".", j)
      {
      }
      assert IsFirstFree("", base, ".", seenModuleCodes, suffix - 1);
      seenModuleCodes := seenModuleCodes + {candidate};
    }
  }

  // ----- The records -----

  /** `r` is the record of `s` when the records `before` have been built. */
  ghost predicate Recorded(before: seq<EntryRecord>, s: Selection, r: EntryRecord, options: SyncOptions) {
    && r.piece == s.piece && r.entry == s.entry
    && FirstFree(EntryKeyPrefix(s.piece, s.entry.entryType), EntryBase(s.entry), "_", EntryKeys(before), r.entryName)
    && FirstFree("", ModuleBase(s.piece, s.entry.entryType, r.entryName), ".", ModuleCodes(before), r.moduleCode)
    && r.policy == PolicyFor(s.piece, s.entry.entryType)
    && r.sourceImageTag == options.sourceImageTag
  }

  /** One record per selection, each with the first names free behind the records before it. */
  ghost predicate AreRecords(selected: seq<Selection>, records: seq<EntryRecord>, options: SyncOptions) {
    |records| == |selected| && forall i :: 0 <= i < |records| ==> RecordedAt(selected, records, options, i)
  }

  ghost predicate RecordedAt(selected: seq<Selection>, records: seq<EntryRecord>, options: SyncOptions, i: int)
    requires 0 <= i < |records| == |selected|
  {
    Recorded(records[..i], selected[i], records[i], options)
  }

  lemma OneMoreKey(records: seq<EntryRecord>, r: EntryRecord)
    ensures EntryKeys(records + [r]) == EntryKeys(records) + {EntryKey(r)}
  {
    var longer := records + [r];
    assert forall i :: 0 <= i < |records| ==> longer[i] == records[i];
    assert longer[|records|] == r;
    assert forall key :: key in EntryKeys(records) ==> key in EntryKeys(longer);
  }

  lemma OneMoreCode(records: seq<EntryRecord>, r: EntryRecord)
    ensures ModuleCodes(records + [r]) == ModuleCodes(records) + {r.moduleCode}
  {
    var longer := records + [r];
    assert forall i :: 0 <= i < |records| ==> longer[i] == records[i];
    assert longer[|records|] == r;
    assert forall code :: code in ModuleCodes(records) ==> code in ModuleCodes(longer);
  }

  lemma OneMoreRecord(selected: seq<Selection>, records: seq<EntryRecord>, s: Selection, r: EntryRecord,
                      options: SyncOptions)
    requires AreRecords(selected, records, options) && Recorded(records, s, r, options)
    ensures AreRecords(selected + [s], records + [r], options)
  {
    var longer := records + [r];
    forall i | 0 <= i < |longer|
      ensures RecordedAt(selected + [s], longer, options, i)
    {
      if i < |records| {
        assert longer[..i] == records[..i];
        assert RecordedAt(selected, records, options, i);
      } else {
        assert longer[..i] == records;
      }
    }
  }

  method BuildEntryRecords(pieces: seq<Piece>, options: SyncOptions) returns (records: seq<EntryRecord>)
    ensures AreRecords(Selected(pieces, options), records, options)
  {
    records := [];
    var names := new NameAllocator();
    for p := 0 to |pieces|
      invariant AreRecords(Selected(pieces[..p], options), records, options)
      invariant names.seenEntryKeys == EntryKeys(records) && names.seenModuleCodes == ModuleCodes(records)
    {
      assert pieces[..p + 1][..p] == pieces[..p];
      records := RecordPiece(pieces[p], options, records, Selected(pieces[..p], options), names);
    }
    assert pieces[..|pieces|] == pieces;
  }

  /** The body of the inner loop. */
  method RecordEntry(piece: Piece, entry: InventoryEntry, options: SyncOptions, ghost records: seq<EntryRecord>,
                     names: NameAllocator)
    returns (record: EntryRecord)
    requires names.seenEntryKeys == EntryKeys(records) && names.seenModuleCodes == ModuleCodes(records)
    modifies names
    ensures Recorded(records, Selection(piece, entry), record, options)
    ensures names.seenEntryKeys == EntryKeys(records + [record])
    ensures names.seenModuleCodes == ModuleCodes(records + [record])
  {
    var policy := PolicyFor(piece, entry.entryType);
    var entryName := names.UniqueEntryName(piece, entry);
    var moduleCode := names.UniqueModuleCode(ModuleBase(piece, entry.entryType, entryName));
    record := EntryRecord(piece, entry, entryName, moduleCode, policy, options.sourceImageTag);
    OneMoreKey(records, record);
    OneMoreCode(records, record);
  }

  /** The inner loop: the entries of one piece. */
  method RecordPiece(piece: Piece, options: SyncOptions, before: seq<EntryRecord>, ghost done: seq<Selection>,
                     names: NameAllocator)
    returns (records: seq<EntryRecord>)
    requires AreRecords(done, before, options)
    requires names.seenEntryKeys == EntryKeys(before) && names.seenModuleCodes == ModuleCodes(before)
    modifies names
    ensures AreRecords(done + Paired(piece, SelectedOf(piece, options)), records, options)
    ensures names.seenEntryKeys == EntryKeys(records) && names.seenModuleCodes == ModuleCodes(records)
  {
    records := before;
    var entries := SelectedOf(piece, options);
    ghost var selections := Paired(piece, entries);
    assert done + selections[..0] == done;
    for i := 0 to |entries|
      invariant AreRecords(done + selections[..i], records, options)
      invariant names.seenEntryKeys == EntryKeys(records) && names.seenModuleCodes == ModuleCodes(records)
    {
      var record := RecordEntry(piece, entries[i], options, records, names);
      OneMoreRecord(done + selections[..i], records, selections[i], record, options);
      assert done + selections[..i + 1] == done + selections[..i] + [selections[i]];
      records := records + [record];
    }
    assert selections[..|entries|] == selections;
  }

  // ----- What the names guarantee -----

  datatype EntryTuple = EntryTuple(packageName: string, packageVersion: string, entryType: EntryType, entryName: string)

  function TupleOf(r: EntryRecord): EntryTuple {
    EntryTuple(r.piece.packageName, r.piece.packageVersion, r.entry.entryType, r.entryName)
  }

  lemma FreeKeyIsNew(prefix: string, base: string, separator: string, taken: set<string>, name: string)
    requires FirstFree(prefix, base, separator, taken, name)
    ensures prefix + name !in taken
  {
  }

  /** However the report looks, no two records share a module code or a tuple of package, version, type and name. */
  lemma NamesUnique(selected: seq<Selection>, records: seq<EntryRecord>, options: SyncOptions, i: nat, j: nat)
    requires AreRecords(selected, records, options) && i < j < |records|
    ensures records[i].moduleCode != records[j].moduleCode
    ensures TupleOf(records[i]) != TupleOf(records[j])
  {
    var before, r := records[..j], records[j];
    assert RecordedAt(selected, records, options, j);
    assert before[i] == records[i];
    FreeKeyIsNew("", ModuleBase(r.piece, r.entry.entryType, r.entryName), ".", ModuleCodes(before), r.moduleCode);
    assert "" + r.moduleCode == r.moduleCode;
    FreeKeyIsNew(EntryKeyPrefix(r.piece, r.entry.entryType), EntryBase(r.entry), "_", EntryKeys(before), r.entryName);
    assert EntryKey(records[i]) in EntryKeys(before);
  }

  lemma RecordUnique(before: seq<EntryRecord>, s: Selection, x: EntryRecord, y: EntryRecord, options: SyncOptions)
    requires Recorded(before, s, x, options) && Recorded(before, s, y, options)
    ensures x == y
  {
    FirstFreeUnique(EntryKeyPrefix(s.piece, s.entry.entryType), EntryBase(s.entry), "_", EntryKeys(before),
                    x.entryName, y.entryName);
    FirstFreeUnique("", ModuleBase(s.piece, s.entry.entryType, x.entryName), ".", ModuleCodes(before),
                    x.moduleCode, y.moduleCode);
  }

  lemma NextAgrees(selected: seq<Selection>, x: seq<EntryRecord>, y: seq<EntryRecord>, options: SyncOptions, i: nat)
    requires AreRecords(selected, x, options) && AreRecords(selected, y, options) && i < |selected|
    requires x[..i] == y[..i]
    ensures x[i] == y[i]
  {
    assert RecordedAt(selected, x, options, i) && RecordedAt(selected, y, options, i);
    RecordUnique(x[..i], selected[i], x[i], y[i], options);
  }

  lemma {:induction false} RecordsAgree(selected: seq<Selection>, x: seq<EntryRecord>, y: seq<EntryRecord>,
                                        options: SyncOptions, n: nat)
    requires AreRecords(selected, x, options) && AreRecords(selected, y, options) && n <= |selected|
    ensures x[..n] == y[..n]
  {
    if n > 0 {
      RecordsAgree(selected, x, y, options, n - 1);
      NextAgrees(selected, x, y, options, n - 1);
      assert x[..n] == x[..n - 1] + [x[n - 1]] && y[..n] == y[..n - 1] + [y[n - 1]];
    }
  }

  /** The specification leaves no choice: a report has one list of records. */
  lemma RecordsUnique(selected: seq<Selection>, x: seq<EntryRecord>, y: seq<EntryRecord>, options: SyncOptions)
    requires AreRecords(selected, x, options) && AreRecords(selected, y, options)
    ensures x == y
  {
    RecordsAgree(selected, x, y, options, |selected|);
    assert x[..|selected|] == x && y[..|selected|] == y;
  }

  lemma {:induction false} DecimalDigits(n: nat)
    ensures Decimal(n) != "" && forall i :: 0 <= i < |Decimal(n)| ==> '0' <= Decimal(n)[i] <= '9'
  {
    if n >= 10 {
      DecimalDigits(n / 10);
    }
  }

  lemma CandidateNormal(base: string, k: nat)
    requires base != "" && NormalForm(base)
    ensures Candidate(base, "_", k) != "" && NormalForm(Candidate(base, "_", k))
  {
    if k >= 2 {
      DecimalDigits(k);
    }
  }

  /** Names that come normalised from the inventory stay normalised, and non-empty, when a suffix is added. */
  lemma NamesStayNormal(before: seq<EntryRecord>, s: Selection, r: EntryRecord, options: SyncOptions, value: string)
    requires Recorded(before, s, r, options) && s.entry.name == NormalizeEntryName(value)
    ensures r.entryName != "" && NormalizeEntryName(r.entryName) == r.entryName
  {
    NormalizeIsNormal(value);
    var base := EntryBase(s.entry);
    var k: nat :| IsFirstFree(EntryKeyPrefix(s.piece, s.entry.entryType), base, "_", EntryKeys(before), k)
                  && r.entryName == Candidate(base, "_", k);
    CandidateNormal(base, k);
    NormalIffFixed(r.entryName);
  }


  // ----- Policies and names, read off the report -----

  /** The first reason that applies to an entry, if any. */
  ghost predicate GatedBy(piece: Piece, t: EntryType, reason: Option<GatingReason>) {
    if t == TriggerEntry then reason == Some(TriggerImportReadOnly)
    else if piece.risk == BlockedByDefault then reason == Some(AiRouteRequiresGateway)
    else if piece.risk == ForbiddenInProduction then reason == Some(PieceForbiddenInProduction)
    else if piece.exposure in {AdminOnly, AdvancedUsers} then reason == Some(AdvancedOrAdminOnly)
    else if piece.exposure in {Hidden, Blocked} then reason == Some(PieceNeedsReview)
    else if piece.authType != "none" then reason == Some(ConnectionRequired)
    else if piece.exposure == ApprovalRequired then reason == Some(ApprovalRecommended)
    else if piece.exposure == WorkspacePolicy then reason == Some(WorkspacePolicyRequired)
    else reason == None
  }

  /** What a reason means for an entry. */
  ghost predicate Gates(reason: Option<GatingReason>, status: EntryStatus, availability: Availability) {
    match reason
    case None => status == Active && availability == Available
    case Some(TriggerImportReadOnly) => status == BlockedEntry && availability == BlockedByRuntime
    case Some(AiRouteRequiresGateway) => status == BlockedEntry && availability == BlockedByDataPolicy
    case Some(PieceForbiddenInProduction) => status == BlockedEntry && availability == BlockedByDataPolicy
    case Some(AdvancedOrAdminOnly) => status == BlockedEntry && availability == BlockedByRole
    case Some(PieceNeedsReview) => status == BlockedEntry && availability == BlockedByRuntime
    case Some(ConnectionRequired) => status == Active && availability == MissingConnection
    case Some(_) => status == Active && availability == AvailableWithWarnings
  }

  /** The policy of an entry: its reason, what that means, the connection it waits for and its risk. */
  lemma PolicyMeans(piece: Piece, t: EntryType)
    ensures var policy := PolicyFor(piece, t);
            && GatedBy(piece, t, policy.gatingReason)
            && Gates(policy.gatingReason, policy.status, policy.availabilityStatus)
            && policy.requiredConnectionType ==
               (if policy.gatingReason == Some(ConnectionRequired) then Some(piece.slug + ":" + piece.authType)
                else None)
            && (policy.riskLevel == Low <==> piece.risk == SafeByDefault)
            && (policy.riskLevel == Medium <==> piece.risk == SafeWithWorkspacePolicy)
            && (policy.riskLevel == Critical <==> piece.risk in {BlockedByDefault, ForbiddenInProduction})
  {
  }

  /** A trigger is never active, and nothing that production forbids is. */
  lemma NeverActive(piece: Piece, t: EntryType)
    ensures PolicyFor(piece, t).status == Active <==>
            && t == ActionEntry && piece.risk !in {BlockedByDefault, ForbiddenInProduction}
            && piece.exposure !in {AdminOnly, AdvancedUsers, Hidden, Blocked}
  {
    PolicyMeans(piece, t);
  }

  /** The record has the name that a selection asks for. */
  ghost predicate HasName(x: EntryRecord, s: Selection, name: string) {
    x.piece.packageName + "|" + x.piece.packageVersion + "|"
    + (if x.entry.entryType == ActionEntry then "action" else "trigger") + "|" + x.entryName ==
    s.piece.packageName + "|" + s.piece.packageVersion + "|"
    + (if s.entry.entryType == ActionEntry then "action" else "trigger") + "|" + name
  }

  /** The `k`-th name tried for a base. */
  ghost predicate IsTry(base: string, separator: string, k: nat, name: string) {
    if k == 1 then name == base else name == base + separator + Decimal(k)
  }

  /** The entry name is the first of base, base_2, base_3, ... that no record before has. */
  ghost predicate TakesFirstName(before: seq<EntryRecord>, s: Selection, name: string) {
    var base := if s.entry.name != "" then s.entry.name
                else if s.entry.entryType == ActionEntry then "action" else "trigger";
    exists k: nat :: k >= 1 && IsTry(base, "_", k, name) && (forall x :: x in before ==> !HasName(x, s, name)) &&
      forall j: nat, earlier :: 1 <= j < k && IsTry(base, "_", j, earlier) ==>
        exists x :: x in before && HasName(x, s, earlier)
  }

  /** The `k`-th module code tried for a name. */
  ghost predicate CodeTried(s: Selection, name: string, k: nat, code: string) {
    IsTry("ap." + s.piece.slug + "." + (if s.entry.entryType == ActionEntry then "action" else "trigger") + "." + name,
          ".", k, code)
  }

  ghost predicate HasCode(before: seq<EntryRecord>, code: string) {
    exists x :: x in before && x.moduleCode == code
  }

  /** The module code is the first of ap.slug.type.name, ap.slug.type.name.2, ... that no record before has. */
  ghost predicate FirstCode(before: seq<EntryRecord>, s: Selection, name: string, code: string) {
    exists k: nat :: k >= 1 && CodeTried(s, name, k, code) && !HasCode(before, code) &&
      forall j: nat, earlier :: 1 <= j < k && CodeTried(s, name, j, earlier) ==> HasCode(before, earlier)
  }

  lemma KeyIff(before: seq<EntryRecord>, s: Selection, name: string)
    ensures EntryKeyPrefix(s.piece, s.entry.entryType) + name in EntryKeys(before) <==>
            exists x :: x in before && HasName(x, s, name)
  {
    var key := EntryKeyPrefix(s.piece, s.entry.entryType) + name;
    if i :| 0 <= i < |before| && EntryKey(before[i]) == key {
      assert before[i] in before && HasName(before[i], s, name);
    }
    if x :| x in before && HasName(x, s, name) {
      var i :| 0 <= i < |before| && before[i] == x;
      assert EntryKey(before[i]) == key;
    }
  }

  lemma CodeIff(before: seq<EntryRecord>, code: string)
    ensures "" + code in ModuleCodes(before) <==> exists x :: x in before && x.moduleCode == code
  {
    assert "" + code == code;
    if i :| 0 <= i < |before| && before[i].moduleCode == code {
      assert before[i] in before;
    }
    if x :| x in before && x.moduleCode == code {
      var i :| 0 <= i < |before| && before[i] == x;
    }
  }

  lemma NameMeans(before: seq<EntryRecord>, s: Selection, name: string)
    requires FirstFree(EntryKeyPrefix(s.piece, s.entry.entryType), EntryBase(s.entry), "_", EntryKeys(before), name)
    ensures TakesFirstName(before, s, name)
  {
    var prefix, base := EntryKeyPrefix(s.piece, s.entry.entryType), EntryBase(s.entry);
    var k: nat :| IsFirstFree(prefix, base, "_", EntryKeys(before), k) && name == Candidate(base, "_", k);
    KeyIff(before, s, name);
    forall j: nat, earlier | 1 <= j < k && IsTry(base, "_", j, earlier)
      ensures exists x :: x in before && HasName(x, s, earlier)
    {
      assert earlier == Candidate(base, "_", j);
      KeyIff(before, s, earlier);
    }
    assert IsTry(base, "_", k, name);
  }

  lemma TriedIsCandidate(s: Selection, name: string, k: nat, code: string)
    requires k >= 1
    ensures CodeTried(s, name, k, code) <==> code == Candidate(ModuleBase(s.piece, s.entry.entryType, name), ".", k)
  {
  }

  lemma CodeMeans(before: seq<EntryRecord>, s: Selection, name: string, code: string)
    requires FirstFree("", ModuleBase(s.piece, s.entry.entryType, name), ".", ModuleCodes(before), code)
    ensures FirstCode(before, s, name, code)
  {
    var base := ModuleBase(s.piece, s.entry.entryType, name);
    var k: nat :| IsFirstFree("", base, ".", ModuleCodes(before), k) && code == Candidate(base, ".", k);
    CodeIff(before, code);
    TriedIsCandidate(s, name, k, code);
    forall j: nat, earlier | 1 <= j < k && CodeTried(s, name, j, earlier)
      ensures HasCode(before, earlier)
    {
      TriedIsCandidate(s, name, j, earlier);
      CodeIff(before, earlier);
    }
  }

  /** A record, read off the selection and the records before it. */
  lemma RecordMeans(before: seq<EntryRecord>, s: Selection, r: EntryRecord, options: SyncOptions)
    requires Recorded(before, s, r, options)
    ensures r.piece == s.piece && r.entry == s.entry && r.sourceImageTag == options.sourceImageTag
    ensures TakesFirstName(before, s, r.entryName) && FirstCode(before, s, r.entryName, r.moduleCode)
    ensures GatedBy(s.piece, s.entry.entryType, r.policy.gatingReason)
    ensures Gates(r.policy.gatingReason, r.policy.status, r.policy.availabilityStatus)
  {
    NameMeans(before, s, r.entryName);
    CodeMeans(before, s, r.entryName, r.moduleCode);
    PolicyMeans(s.piece, s.entry.entryType);
  }

  /** How many of a piece's entries are taken, actions first: all, the first ones, or all but the last ones. */
  lemma SelectedMeans(piece: Piece, options: SyncOptions)
    ensures var all := piece.actionEntries + piece.triggerEntries;
            match options.maxEntriesPerPiece
            case None => SelectedOf(piece, options) == all
            case Some(n) =>
              && (n == 0 || n >= |all| ==> SelectedOf(piece, options) == all)
              && (0 < n < |all| ==> SelectedOf(piece, options) == all[..n])
              && (-|all| < n < 0 ==> SelectedOf(piece, options) == all[..|all| + n])
              && (n <= -|all| && n != 0 ==> SelectedOf(piece, options) == [])
  {
  }

  ghost predicate SelectsAt(all: seq<Selection>, k: nat, s: Selection) {
    k < |all| && all[k] == s
  }

  lemma SelectsInFront(front: seq<Selection>, last: seq<Selection>, k: nat, s: Selection)
    requires SelectsAt(front, k, s)
    ensures SelectsAt(front + last, k, s)
  {
  }

  lemma SelectsBehind(front: seq<Selection>, last: seq<Selection>, k: nat, s: Selection)
    requires SelectsAt(last, k, s)
    ensures SelectsAt(front + last, |front| + k, s)
  {
  }

  lemma SelectedGrows(pieces: seq<Piece>, options: SyncOptions, n: nat)
    requires n < |pieces|
    ensures Selected(pieces[..n + 1], options) ==
            Selected(pieces[..n], options) + Paired(pieces[n], SelectedOf(pieces[n], options))
  {
    assert pieces[..n + 1][..n] == pieces[..n];
  }

  lemma SelectedKeeps(pieces: seq<Piece>, options: SyncOptions, n: nat, k: nat, s: Selection)
    requires n < |pieces| && SelectsAt(Selected(pieces[..n], options), k, s)
    ensures SelectsAt(Selected(pieces[..n + 1], options), k, s)
  {
    SelectedGrows(pieces, options, n);
    SelectsInFront(Selected(pieces[..n], options), Paired(pieces[n], SelectedOf(pieces[n], options)), k, s);
  }

  lemma SelectedStarts(pieces: seq<Piece>, options: SyncOptions, p: nat, i: nat, s: Selection)
    requires p < |pieces| && SelectsAt(Paired(pieces[p], SelectedOf(pieces[p], options)), i, s)
    ensures SelectsAt(Selected(pieces[..p + 1], options), |Selected(pieces[..p], options)| + i, s)
  {
    SelectedGrows(pieces, options, p);
    SelectsBehind(Selected(pieces[..p], options), Paired(pieces[p], SelectedOf(pieces[p], options)), i, s);
  }

  ghost predicate SelectsBy(pieces: seq<Piece>, options: SyncOptions, n: nat, k: nat, s: Selection) {
    n <= |pieces| ==> SelectsAt(Selected(pieces[..n], options), k, s)
  }

  lemma {:induction false} SelectedStays(pieces: seq<Piece>, options: SyncOptions, m: nat, n: nat, k: nat, s: Selection)
    requires m <= n <= |pieces| && SelectsBy(pieces, options, m, k, s)
    ensures SelectsBy(pieces, options, n, k, s)
    decreases n - m
  {
    if m < n {
      SelectedKeeps(pieces, options, m, k, s);
      SelectedStays(pieces, options, m + 1, n, k, s);
    }
  }

  /** The selections are those of each piece in turn. */
  lemma SelectedAt(pieces: seq<Piece>, options: SyncOptions, p: nat, i: nat, s: Selection)
    requires p < |pieces| && SelectsAt(Paired(pieces[p], SelectedOf(pieces[p], options)), i, s)
    ensures SelectsAt(Selected(pieces, options), |Selected(pieces[..p], options)| + i, s)
  {
    SelectedStarts(pieces, options, p, i, s);
    SelectedStays(pieces, options, p + 1, |pieces|, |Selected(pieces[..p], options)| + i, s);
    assert pieces[..|pieces|] == pieces;
  }
}
